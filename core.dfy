/** The bookkeeping of ptera/core.py: the `Collection` accumulator, the `ActivePattern` chain
    with its capture merge, and the list rule of `Policy.proceed`. Matching one pattern against
    a call (`pattern.filter(info)`) is a parameter here: `filter` is the step function the
    selector would apply to the current call information. */
module Core {
  import opened Common

  /** A pattern that is still matching, or the `True` that marks a pattern matched in full. */
  datatype PatternState<P> = Matched | Live(pattern: P)

  /** The outcome of `pattern.filter(info)`: the next pattern (`None` when the call does not
      match) and the captures the step made, each keyed by its capture name. */
  datatype Step<P, C> = Step(next: Option<PatternState<P>>, captures: seq<(string, C)>)

  /** The `rules` object a pattern carries (for instance `{"accumulate": True}`). */
  type Rules = map<string, bool>

  /** `ActivePattern`: a record whose `parent` links back to the pattern it stepped from. The
      source's dataclass is mutable; the model holds it as a value. */
  datatype ActivePattern<P, C> = ActivePattern(
    parent: Option<ActivePattern<P, C>>,
    pattern: PatternState<P>,
    originalPattern: string,
    rules: Rules,
    captures: map<string, C>,
    isFresh: bool,
    immediate: bool)

  /** `ActivePattern.from_rules`: a root pattern with no captures, fresh and immediate. The
      caller passes the parsed pattern together with the text it came from. */
  function FromRules<P, C>(pattern: P, original: string, rules: Rules): (r: ActivePattern<P, C>)
    ensures r.parent.None? && r.pattern == Live(pattern) && r.captures == map[]
    ensures r.isFresh && r.immediate && r.originalPattern == original && r.rules == rules
  {
    ActivePattern(None, Live(pattern), original, rules, map[], true, true)
  }

  /** `{cap.capture: cap for cap in captures}`: keyed by name, a later capture replacing an
      earlier one with the same name. */
  function KeyedBy<C>(caps: seq<(string, C)>): (r: map<string, C>)
    ensures r.Keys == set i | 0 <= i < |caps| :: caps[i].0
  {
    if |caps| == 0 then map[]
    else
      var init := KeyedBy(caps[..|caps| - 1]);
      assert forall i :: 0 <= i < |caps| - 1 ==> caps[..|caps| - 1][i] == caps[i];
      init[caps[|caps| - 1].0 := caps[|caps| - 1].1]
  }

  /** The entry kept for a name is the last capture that carries it. */
  lemma {:induction false} KeyedByLastWins<C>(caps: seq<(string, C)>, i: int)
    requires 0 <= i < |caps|
    requires forall j :: i < j < |caps| ==> caps[j].0 != caps[i].0
    ensures caps[i].0 in KeyedBy(caps) && KeyedBy(caps)[caps[i].0] == caps[i].1
    decreases |caps|
  {
    if i < |caps| - 1 {
      var init := caps[..|caps| - 1];
      assert forall j :: i < j < |init| ==> init[j] == caps[j];
      KeyedByLastWins(init, i);
    }
  }

  /** `ActivePattern.proceed(info)`: a matched pattern goes no further; otherwise the step
      either fails (`None`) or yields a child pattern linked to this one, which is not fresh and
      is immediate exactly when the pattern that stepped asks for immediate nesting. */
  function ProceedPattern<P, C>(ap: ActivePattern<P, C>, filter: P -> Step<P, C>, nestedImmediate: P -> bool)
    : (r: Option<ActivePattern<P, C>>)
    ensures ap.pattern.Matched? ==> r.None?
    ensures r.Some? <==> ap.pattern.Live? && filter(ap.pattern.pattern).next.Some?
    ensures r.Some? ==> && r.value.parent == Some(ap)
                        && r.value.pattern == filter(ap.pattern.pattern).next.value
                        && r.value.originalPattern == ap.originalPattern
                        && r.value.rules == ap.rules
                        && r.value.captures == KeyedBy(filter(ap.pattern.pattern).captures)
                        && r.value.captures.Keys == (set c | c in filter(ap.pattern.pattern).captures :: c.0)
                        && !r.value.isFresh
                        && r.value.immediate == nestedImmediate(ap.pattern.pattern)
  {
    match ap.pattern
    case Matched => None
    case Live(p) =>
      var step := filter(p);
      if step.next.None? then None
      else
        var caps := KeyedBy(step.captures);
        assert caps.Keys == (set c | c in step.captures :: c.0) by {
          forall c | c in step.captures ensures c.0 in caps.Keys {
            var i :| 0 <= i < |step.captures| && step.captures[i] == c;
          }
        }
        Some(ActivePattern(Some(ap), step.next.value, ap.originalPattern, ap.rules, caps, false,
                           nestedImmediate(p)))
  }

  // ---------------------------------------------------------------------------
  // get_captures

  /** The capture maps from a pattern up to its root, the pattern's own first. */
  function Line<P, C>(ap: ActivePattern<P, C>): (r: seq<map<string, C>>)
    ensures |r| > 0 && r[0] == ap.captures
    decreases ap
  {
    match ap.parent
    case None => [ap.captures]
    case Some(p) => [ap.captures] + Line(p)
  }

  /** The merge `get_captures` computes: each map along the line is laid over the ones nearer
      the pattern. */
  function Gathered<P, C>(ap: ActivePattern<P, C>): map<string, C>
    decreases ap
  {
    match ap.parent
    case None => ap.captures
    case Some(p) => ap.captures + Gathered(p)
  }

  /** A name is captured iff some pattern on the line captured it. */
  lemma {:induction false} GatheredKeys<P, C>(ap: ActivePattern<P, C>, k: string)
    ensures k in Gathered(ap) ==> exists i :: 0 <= i < |Line(ap)| && k in Line(ap)[i]
    ensures (exists i :: 0 <= i < |Line(ap)| && k in Line(ap)[i]) ==> k in Gathered(ap)
    decreases ap
  {
    var l := Line(ap);
    if ap.parent.None? {
      if k in ap.captures {
        assert k in l[0];
      }
    } else {
      var p := ap.parent.value;
      GatheredKeys(p, k);
      assert l == [ap.captures] + Line(p);
      assert Gathered(ap) == ap.captures + Gathered(p);
      assert k in Gathered(ap) <==> k in ap.captures || k in Gathered(p);
      if k in ap.captures {
        assert k in l[0];
      } else if k in Gathered(p) {
        var i :| 0 <= i < |Line(p)| && k in Line(p)[i];
        assert l[i + 1] == Line(p)[i];
      } else {
        forall i | 0 <= i < |l| ensures k !in l[i] {
          if i > 0 {
            assert l[i] == Line(p)[i - 1];
          }
        }
      }
    }
  }

  /** The value kept for a name is the one of the farthest ancestor that captured it: its
      `update` comes last. */
  lemma {:induction false} GatheredFarthestWins<P, C>(ap: ActivePattern<P, C>, k: string, i: int)
    requires 0 <= i < |Line(ap)| && k in Line(ap)[i]
    requires forall j :: i < j < |Line(ap)| ==> k !in Line(ap)[j]
    ensures k in Gathered(ap) && Gathered(ap)[k] == Line(ap)[i][k]
    decreases ap
  {
    var l := Line(ap);
    if ap.parent.Some? {
      var p := ap.parent.value;
      assert l == [ap.captures] + Line(p);
      if i > 0 {
        assert l[i] == Line(p)[i - 1];
        forall j | i - 1 < j < |Line(p)| ensures k !in Line(p)[j] {
          assert l[j + 1] == Line(p)[j];
        }
        GatheredFarthestWins(p, k, i - 1);
      } else {
        GatheredKeys(p, k);
        forall j | 0 <= j < |Line(p)| ensures k !in Line(p)[j] {
          assert l[j + 1] == Line(p)[j];
        }
      }
    }
  }

  /** The number of patterns from `o` up to the root. */
  function Depth<P, C>(o: Option<ActivePattern<P, C>>): nat
    decreases o
  {
    match o
    case None => 0
    case Some(a) => 1 + Depth(a.parent)
  }

  lemma MapUnionAssociative<K, V>(a: map<K, V>, b: map<K, V>, c: map<K, V>)
    ensures (a + b) + c == a + (b + c)
  {
  }

  /** `ActivePattern.get_captures`: walks the parent links, updating one dictionary. */
  method GetCaptures<P, C>(ap: ActivePattern<P, C>) returns (rval: map<string, C>)
    ensures rval == Gathered(ap)
  {
    var current := Some(ap);
    rval := map[];
    assert rval + Gathered(ap) == Gathered(ap);
    while current.Some?
      invariant current.Some? ==> rval + Gathered(current.value) == Gathered(ap)
      invariant current.None? ==> rval == Gathered(ap)
      decreases Depth(current)
    {
      var c := current.value;
      if c.parent.Some? {
        MapUnionAssociative(rval, c.captures, Gathered(c.parent.value));
      }
      rval := rval + c.captures;
      current := c.parent;
    }
  }

  // ---------------------------------------------------------------------------
  // Collection

  /** An entry of `Collection.data`: an active pattern before `finish`, its merged captures after. */
  datatype Entry<P, C> = Pending(ap: ActivePattern<P, C>) | Finished(caps: map<string, C>)

  /** The captures an entry stands for. */
  function EntryCaptures<P, C>(e: Entry<P, C>): map<string, C> {
    match e
    case Pending(ap) => Gathered(ap)
    case Finished(m) => m
  }

  /** What `finish` turns the data into. */
  function FinishAll<P, C>(ds: seq<Entry<P, C>>): (r: seq<Entry<P, C>>)
    ensures |r| == |ds|
  {
    if |ds| == 0 then []
    else FinishAll(ds[..|ds| - 1]) + [Finished(EntryCaptures(ds[|ds| - 1]))]
  }

  /** Finishing keeps the order and the captures of every entry and leaves only finished
      entries, so finishing again changes nothing. */
  lemma {:induction false} FinishAllKeepsCaptures<P, C>(ds: seq<Entry<P, C>>)
    ensures forall i :: 0 <= i < |ds| ==> FinishAll(ds)[i] == Finished(EntryCaptures(ds[i]))
    ensures FinishAll(FinishAll(ds)) == FinishAll(ds)
    decreases |ds|
  {
    if |ds| > 0 {
      var init := ds[..|ds| - 1];
      FinishAllKeepsCaptures(init);
      assert FinishAll(ds)[..|ds| - 1] == FinishAll(init);
      assert FinishAll(FinishAll(ds)) == FinishAll(FinishAll(init)) + [FinishAll(ds)[|ds| - 1]];
    }
  }

  /** The captures of each entry. */
  function EntriesOf<P, C>(ds: seq<Entry<P, C>>): (r: seq<map<string, C>>)
    ensures |r| == |ds|
    ensures forall i :: 0 <= i < |ds| ==> r[i] == EntryCaptures(ds[i])
  {
    seq(|ds|, i requires 0 <= i < |ds| => EntryCaptures(ds[i]))
  }

  /** `[entry[key].value for entry in self]`: a `KeyError` names the key when an entry lacks it. */
  function Field<C, W>(entries: seq<map<string, C>>, key: string, valueOf: C -> W): (r: Result<seq<W>, string>)
    ensures r.Ok? <==> forall i :: 0 <= i < |entries| ==> key in entries[i]
    ensures r.Err? ==> r.error == key
    ensures r.Ok? ==> |r.value| == |entries| &&
                      forall i :: 0 <= i < |entries| ==> r.value[i] == valueOf(entries[i][key])
  {
    if |entries| == 0 then Ok([])
    else
      var init := entries[..|entries| - 1];
      assert forall i :: 0 <= i < |init| ==> init[i] == entries[i];
      var last := entries[|entries| - 1];
      if key !in last then Err(key)
      else
        var vs :- Field(init, key, valueOf);
        Ok(vs + [valueOf(last[key])])
  }

  /** `{key: cap.value for key, cap in entry.items()}` for every entry. */
  function ValuesOf<C, W>(entries: seq<map<string, C>>, valueOf: C -> W): (r: seq<map<string, W>>)
    ensures |r| == |entries|
    ensures forall i :: 0 <= i < |entries| ==> r[i].Keys == entries[i].Keys
    ensures forall i, k :: 0 <= i < |entries| && k in entries[i] ==> r[i][k] == valueOf(entries[i][k])
  {
    if |entries| == 0 then []
    else
      var init := entries[..|entries| - 1];
      var last := entries[|entries| - 1];
      ValuesOf(init, valueOf) + [map k | k in last :: valueOf(last[k])]
  }

  /** `Collection`: patterns added while a run goes on, turned into capture maps by `finish`. */
  class Collection<P, C> {
    var data: seq<Entry<P, C>>
    var done: bool

    /** Entries are pending before `finish` and finished after. */
    ghost predicate Valid()
      reads this
    {
      forall i :: 0 <= i < |data| ==> (data[i].Finished? <==> done)
    }

    constructor ()
      ensures data == [] && !done && Valid()
    {
      data := [];
      done := false;
    }

    /** `add(pattern)`; `ok` is false where the source's `assert not self.done` fails. */
    method Add(ap: ActivePattern<P, C>) returns (ok: bool)
      requires Valid()
      modifies this
      ensures Valid() && done == old(done)
      ensures ok == !old(done)
      ensures data == if ok then old(data) + [Pending(ap)] else old(data)
    {
      if done {
        ok := false;
      } else {
        data := data + [Pending(ap)];
        ok := true;
      }
    }

    /** `finish()`: the first call replaces every pattern by its merged captures; later calls do
        nothing. */
    method Finish()
      requires Valid()
      modifies this
      ensures Valid() && done
      ensures data == if old(done) then old(data) else FinishAll(old(data))
    {
      if !done {
        var ds := data;
        var out: seq<Entry<P, C>> := [];
        for i := 0 to |ds|
          invariant out == FinishAll(ds[..i])
        {
          var m := GetCaptures(ds[i].ap);
          assert ds[..i + 1][..i] == ds[..i];
          out := out + [Finished(m)];
        }
        assert ds[..|ds|] == ds;
        FinishAllKeepsCaptures(ds);
        done := true;
        data := out;
      }
    }

    /** `iter(self)`: finishes first, then yields the capture maps in order. */
    method Iter() returns (entries: seq<map<string, C>>)
      requires Valid()
      modifies this
      ensures Valid() && done
      ensures data == if old(done) then old(data) else FinishAll(old(data))
      ensures entries == EntriesOf(data) == EntriesOf(old(data))
    {
      ghost var before := data;
      Finish();
      FinishAllKeepsCaptures(before);
      entries := EntriesOf(data);
    }

    /** `map(key)` with a string key: the value captured under `key` in every entry. */
    method MapKey<W>(key: string, valueOf: C -> W) returns (r: Result<seq<W>, string>)
      requires Valid()
      modifies this
      ensures Valid() && done
      ensures data == if old(done) then old(data) else FinishAll(old(data))
      ensures r == Field(EntriesOf(old(data)), key, valueOf)
    {
      var entries := Iter();
      r := Field(entries, key, valueOf);
    }

    /** `map()` with no function: every entry with its captures replaced by their values. */
    method MapValues<W>(valueOf: C -> W) returns (r: seq<map<string, W>>)
      requires Valid()
      modifies this
      ensures Valid() && done
      ensures data == if old(done) then old(data) else FinishAll(old(data))
      ensures r == ValuesOf(EntriesOf(old(data)), valueOf)
    {
      var entries := Iter();
      r := ValuesOf(entries, valueOf);
    }

    /** `map_full(key)` with a string key: the captured object under `key` in every entry. */
    method MapFullKey(key: string) returns (r: Result<seq<C>, string>)
      requires Valid()
      modifies this
      ensures Valid() && done
      ensures data == if old(done) then old(data) else FinishAll(old(data))
      ensures r == Field(EntriesOf(old(data)), key, (c: C) => c)
    {
      var entries := Iter();
      r := Field(entries, key, (c: C) => c);
    }
  }

  // ---------------------------------------------------------------------------
  // Policy

  /** The rules a tap pattern is given. */
  function TapRules(): Rules {
    map["accumulate" := true]
  }

  /** The patterns `proceed` appends for its taps, in order. */
  function TapPatterns<P, C>(taps: seq<string>, parse: string -> P): (r: seq<ActivePattern<P, C>>)
    ensures |r| == |taps|
    ensures forall i :: 0 <= i < |taps| ==> r[i] == FromRules(parse(taps[i]), taps[i], TapRules())
  {
    seq(|taps|, i requires 0 <= i < |taps| => FromRules(parse(taps[i]), taps[i], TapRules()))
  }

  /** The patterns `Policy(dict)` builds, one per pattern text and its rules. */
  function DictPatterns<P, C>(specs: seq<(string, Rules)>, parse: string -> P): (r: seq<ActivePattern<P, C>>)
    ensures |r| == |specs|
    ensures forall i :: 0 <= i < |specs| ==> r[i] == FromRules(parse(specs[i].0), specs[i].0, specs[i].1)
  {
    seq(|specs|, i requires 0 <= i < |specs| => FromRules(parse(specs[i].0), specs[i].0, specs[i].1))
  }

  /** What one pattern contributes to the first part of `proceed`'s result: its successor, or
      itself when the step failed but it is neither immediate nor matched, or nothing. */
  function Survivor<P, C>(ap: ActivePattern<P, C>, filter: P -> Step<P, C>, nestedImmediate: P -> bool)
    : seq<ActivePattern<P, C>>
  {
    match ProceedPattern(ap, filter, nestedImmediate)
    case Some(next) => [next]
    case None => if !ap.immediate && ap.pattern.Live? then [ap] else []
  }

  /** The first part of `proceed`'s result, in input order. */
  function Stepped<P, C>(ps: seq<ActivePattern<P, C>>, filter: P -> Step<P, C>, nestedImmediate: P -> bool)
    : (r: seq<ActivePattern<P, C>>)
    ensures |r| <= |ps|
  {
    if |ps| == 0 then []
    else Stepped(ps[..|ps| - 1], filter, nestedImmediate) + Survivor(ps[|ps| - 1], filter, nestedImmediate)
  }

  /** `[p for p in patterns if p.fresh]`. */
  function FreshOf<P, C>(ps: seq<ActivePattern<P, C>>): (r: seq<ActivePattern<P, C>>)
    ensures |r| <= |ps|
  {
    if |ps| == 0 then []
    else FreshOf(ps[..|ps| - 1]) + (if ps[|ps| - 1].isFresh then [ps[|ps| - 1]] else [])
  }

  /** The patterns of the policy `proceed` returns. */
  function Advanced<P, C>(ps: seq<ActivePattern<P, C>>, filter: P -> Step<P, C>, nestedImmediate: P -> bool)
    : seq<ActivePattern<P, C>>
  {
    Stepped(ps, filter, nestedImmediate) + FreshOf(ps)
  }

  /** Every pattern that steps is followed by its successor in the first part. */
  lemma {:induction false} SuccessorsAreKept<P, C>(ps: seq<ActivePattern<P, C>>, filter: P -> Step<P, C>,
                                                   nestedImmediate: P -> bool, i: int)
    requires 0 <= i < |ps| && ProceedPattern(ps[i], filter, nestedImmediate).Some?
    ensures ProceedPattern(ps[i], filter, nestedImmediate).value in Stepped(ps, filter, nestedImmediate)
    decreases |ps|
  {
    var init := ps[..|ps| - 1];
    if i < |ps| - 1 {
      assert init[i] == ps[i];
      SuccessorsAreKept(init, filter, nestedImmediate, i);
    }
  }

  /** A pattern whose step fails stays in the first part when it is neither immediate nor
      matched. */
  lemma {:induction false} WaitingPatternsAreKept<P, C>(ps: seq<ActivePattern<P, C>>, filter: P -> Step<P, C>,
                                                        nestedImmediate: P -> bool, i: int)
    requires 0 <= i < |ps| && ProceedPattern(ps[i], filter, nestedImmediate).None?
    requires !ps[i].immediate && ps[i].pattern.Live?
    ensures ps[i] in Stepped(ps, filter, nestedImmediate)
    decreases |ps|
  {
    var init := ps[..|ps| - 1];
    if i < |ps| - 1 {
      assert init[i] == ps[i];
      WaitingPatternsAreKept(init, filter, nestedImmediate, i);
    }
  }

  /** Conversely, a pattern whose step fails contributes nothing to the first part when it is
      immediate or matched. A fresh root can still come back, through the second part. */
  lemma FailedPatternsDrop<P, C>(ap: ActivePattern<P, C>, filter: P -> Step<P, C>, nestedImmediate: P -> bool)
    requires ProceedPattern(ap, filter, nestedImmediate).None?
    ensures Survivor(ap, filter, nestedImmediate) == [] <==> ap.immediate || ap.pattern.Matched?
    ensures Survivor(ap, filter, nestedImmediate) != [] ==> Survivor(ap, filter, nestedImmediate) == [ap]
  {
  }

  /** Nothing else enters the first part: each of its patterns is what some input pattern
      contributes. */
  lemma {:induction false} SteppedFromInputs<P, C>(ps: seq<ActivePattern<P, C>>, filter: P -> Step<P, C>,
                                                   nestedImmediate: P -> bool, x: ActivePattern<P, C>)
    requires x in Stepped(ps, filter, nestedImmediate)
    ensures exists i :: 0 <= i < |ps| && x in Survivor(ps[i], filter, nestedImmediate)
    decreases |ps|
  {
    var init := ps[..|ps| - 1];
    if x in Stepped(init, filter, nestedImmediate) {
      SteppedFromInputs(init, filter, nestedImmediate, x);
      var i :| 0 <= i < |init| && x in Survivor(init[i], filter, nestedImmediate);
      assert init[i] == ps[i];
    } else {
      assert x in Survivor(ps[|ps| - 1], filter, nestedImmediate);
    }
  }

  /** A pattern in the first part either is a successor (linked to its predecessor by `parent`,
      and not fresh) or a surviving input pattern that is still live and not immediate: a
      matched (`True`) pattern never survives a step. */
  lemma SurvivorShape<P, C>(ap: ActivePattern<P, C>, filter: P -> Step<P, C>, nestedImmediate: P -> bool,
                            x: ActivePattern<P, C>)
    requires x in Survivor(ap, filter, nestedImmediate)
    ensures (x.parent == Some(ap) && !x.isFresh) || (x == ap && x.pattern.Live? && !x.immediate)
    ensures ap.pattern.Live?
  {
  }

  /** The second part holds exactly the fresh input patterns. */
  lemma {:induction false} FreshOfMembers<P, C>(ps: seq<ActivePattern<P, C>>)
    ensures forall x :: x in FreshOf(ps) <==> x in ps && x.isFresh
    decreases |ps|
  {
    if |ps| > 0 {
      var init := ps[..|ps| - 1];
      FreshOfMembers(init);
      assert ps == init + [ps[|ps| - 1]];
    }
  }

  /** Every tap given to `proceed` comes back as a fresh root pattern of the new policy, whether
      or not it matched the current call. */
  lemma TapsAreKept<P, C>(ps: seq<ActivePattern<P, C>>, taps: seq<string>, parse: string -> P,
                          filter: P -> Step<P, C>, nestedImmediate: P -> bool, t: int)
    requires 0 <= t < |taps|
    ensures FromRules<P, C>(parse(taps[t]), taps[t], TapRules())
              in Advanced(ps + TapPatterns(taps, parse), filter, nestedImmediate)
  {
    var all := ps + TapPatterns<P, C>(taps, parse);
    FreshOfMembers(all);
    assert all[|ps| + t] == FromRules<P, C>(parse(taps[t]), taps[t], TapRules());
  }

  /** The tap loop of `Policy.proceed` on the accumulators: each tap gets a new, empty
      collection, and every other entry is kept. */
  method WithTaps<P, C>(accumulators: map<string, Collection<P, C>>, taps: seq<string>)
    returns (accs: map<string, Collection<P, C>>)
    ensures accs.Keys == accumulators.Keys + set t | t in taps
    ensures forall k :: k in accumulators && k !in taps ==> accs[k] == accumulators[k]
    ensures forall t :: t in taps ==> fresh(accs[t]) && accs[t].data == [] && !accs[t].done && accs[t].Valid()
  {
    accs := accumulators;
    for i := 0 to |taps|
      invariant accs.Keys == accumulators.Keys + set t | t in taps[..i]
      invariant forall k :: k in accumulators && k !in taps[..i] ==> accs[k] == accumulators[k]
      invariant forall t :: t in taps[..i] ==> fresh(accs[t]) && accs[t].data == []
                                                && !accs[t].done && accs[t].Valid()
    {
      assert taps[..i + 1] == taps[..i] + [taps[i]];
      var c := new Collection();
      accs := accs[taps[i] := c];
    }
    assert taps[..|taps|] == taps;
  }

  /** The pattern loop of `Policy.proceed`: every pattern is stepped, and the fresh ones are
      added at the end. */
  method StepAll<P, C>(ps: seq<ActivePattern<P, C>>, filter: P -> Step<P, C>, nestedImmediate: P -> bool)
    returns (next: seq<ActivePattern<P, C>>)
    ensures next == Advanced(ps, filter, nestedImmediate)
  {
    next := [];
    for i := 0 to |ps|
      invariant next == Stepped(ps[..i], filter, nestedImmediate)
    {
      assert ps[..i + 1][..i] == ps[..i];
      var np := ProceedPattern(ps[i], filter, nestedImmediate);
      if np.Some? {
        next := next + [np.value];
      } else if !ps[i].immediate && ps[i].pattern.Live? {
        next := next + [ps[i]];
      }
    }
    assert ps[..|ps|] == ps;
    next := next + FreshOf(ps);
  }

  /** `Policy`: the active patterns of a run and the collections its taps accumulate into. */
  class Policy<P, C> {
    var patterns: seq<ActivePattern<P, C>>
    var accumulators: map<string, Collection<P, C>>

    /** `Policy(patterns, accumulators, extend_current)`, where `current` is the ambient policy
        when `extend_current` holds and one is set, and `null` otherwise. */
    constructor (patterns: seq<ActivePattern<P, C>>, accumulators: map<string, Collection<P, C>>,
                 current: Policy?<P, C>)
      ensures current == null ==> this.patterns == patterns && this.accumulators == accumulators
      ensures current != null ==> this.patterns == patterns + current.patterns
                                  && this.accumulators == accumulators + current.accumulators
    {
      if current != null {
        this.patterns := patterns + current.patterns;
        this.accumulators := accumulators + current.accumulators;
      } else {
        this.patterns := patterns;
        this.accumulators := accumulators;
      }
    }

    /** `Policy({pattern: rules, ...})`: every pattern text becomes a root pattern. */
    constructor FromDict(specs: seq<(string, Rules)>, parse: string -> P, accumulators: map<string, Collection<P, C>>,
                         current: Policy?<P, C>)
      ensures current == null ==> this.patterns == DictPatterns(specs, parse) && this.accumulators == accumulators
      ensures current != null ==> this.patterns == DictPatterns(specs, parse) + current.patterns
                                  && this.accumulators == accumulators + current.accumulators
    {
      var ps := DictPatterns<P, C>(specs, parse);
      if current != null {
        this.patterns := ps + current.patterns;
        this.accumulators := accumulators + current.accumulators;
      } else {
        this.patterns := ps;
        this.accumulators := accumulators;
      }
    }

    /** `proceed(info, taps)`: builds the next policy, leaving this one as it is. Each tap adds a
        fresh root pattern and a new, empty collection under its text. */
    method Proceed(filter: P -> Step<P, C>, nestedImmediate: P -> bool, taps: seq<string>, parse: string -> P)
      returns (r: Policy<P, C>)
      ensures fresh(r)
      ensures r.patterns == Advanced(patterns + TapPatterns(taps, parse), filter, nestedImmediate)
      ensures r.accumulators.Keys == accumulators.Keys + set t | t in taps
      ensures forall k :: k in accumulators && k !in taps ==> r.accumulators[k] == accumulators[k]
      ensures forall t :: t in taps ==> fresh(r.accumulators[t]) && r.accumulators[t].data == []
                                        && !r.accumulators[t].done && r.accumulators[t].Valid()
    {
      var ps := patterns + TapPatterns(taps, parse);
      var accs := WithTaps(accumulators, taps);
      var next := StepAll(ps, filter, nestedImmediate);
      r := new Policy(next, accs, null);
    }

    /** `values(pattern)`: the collection of a tap; `None` where the source raises `KeyError`. */
    function Values(tap: string): (r: Option<Collection<P, C>>)
      reads this
      ensures r.Some? <==> tap in accumulators
      ensures r.Some? ==> r.value == accumulators[tap]
    {
      if tap in accumulators then Some(accumulators[tap]) else None
    }
  }
}
