/** The memo stores of ptera/storage.py: `Store`, the wrappers `Storage` puts around its
    initializer, updater and valuer methods, and `Role.make_capture`. Calling user functions
    (`fill`, `initfn`, `updatefn`, `valuefn`) is modelled by function parameters. */
module Storage {
  import opened Common
  import opened Text
  import opened Categories
  import opened Selector

  // ---------------------------------------------------------------------------
  // Store.key: the sorted item tuple of the keyword arguments

  /** Keyword arguments in call order. */
  type Kwargs<A> = seq<(string, A)>

  /** The keywords of a call are distinct, as the keys of a dictionary are. */
  predicate DistinctNames<A>(kw: Kwargs<A>) {
    forall i, j :: 0 <= i < j < |kw| ==> kw[i].0 != kw[j].0
  }

  /** Strictly increasing by keyword, in the order of Python's `str` comparison. */
  predicate SortedByName<A>(kw: Kwargs<A>) {
    forall i, j :: 0 <= i < j < |kw| ==> StrLt(kw[i].0, kw[j].0)
  }

  /** Places one item before the first item whose keyword is greater. */
  function Insert<A>(x: (string, A), s: Kwargs<A>): (r: Kwargs<A>)
    ensures multiset(r) == multiset(s) + multiset{x}
    decreases |s|
  {
    if |s| == 0 then [x]
    else if StrLt(x.0, s[0].0) then [x] + s
    else
      assert s == [s[0]] + s[1..];
      [s[0]] + Insert(x, s[1..])
  }

  lemma SortedTail<A>(s: Kwargs<A>)
    requires |s| > 0 && SortedByName(s)
    ensures SortedByName(s[1..])
  {
    forall p, q | 0 <= p < q < |s| - 1 ensures StrLt(s[1..][p].0, s[1..][q].0) {
      assert s[1..][p] == s[p + 1] && s[1..][q] == s[q + 1];
    }
  }

  /** An item whose keyword is less than every keyword of a sorted list can lead it. */
  lemma SortedCons<A>(h: (string, A), s: Kwargs<A>)
    requires SortedByName(s)
    requires forall i :: 0 <= i < |s| ==> StrLt(h.0, s[i].0)
    ensures SortedByName([h] + s)
  {
    var r := [h] + s;
    forall p, q | 0 <= p < q < |r| ensures StrLt(r[p].0, r[q].0) {
      assert r[q] == s[q - 1];
      if p > 0 {
        assert r[p] == s[p - 1];
      }
    }
  }

  /** Inserting an item with a new keyword keeps the sequence sorted. */
  lemma {:induction false} InsertSorted<A>(x: (string, A), s: Kwargs<A>)
    requires SortedByName(s)
    requires forall i :: 0 <= i < |s| ==> s[i].0 != x.0
    ensures SortedByName(Insert(x, s))
    decreases |s|
  {
    if |s| == 0 {
    } else if StrLt(x.0, s[0].0) {
      assert Insert(x, s) == [x] + s;
      forall i | 0 <= i < |s| ensures StrLt(x.0, s[i].0) {
        if i > 0 {
          StrLtTransitive(x.0, s[0].0, s[i].0);
        }
      }
      SortedCons(x, s);
    } else {
      SortedTail(s);
      InsertSorted(x, s[1..]);
      StrLtTotal(x.0, s[0].0);
      var rest := Insert(x, s[1..]);
      assert Insert(x, s) == [s[0]] + rest;
      forall i | 0 <= i < |rest| ensures StrLt(s[0].0, rest[i].0) {
        assert rest[i] in multiset(rest);
        if rest[i] != x {
          assert rest[i] in multiset(s[1..]);
          var k :| 0 <= k < |s[1..]| && s[1..][k] == rest[i];
          assert s[k + 1] == rest[i];
        }
      }
      SortedCons(s[0], rest);
    }
  }

  /** `tuple(sorted(kwargs.items()))`. With distinct keywords the comparison of items never
      reaches their values. */
  function Key<A>(kw: Kwargs<A>): (r: Kwargs<A>)
    requires DistinctNames(kw)
    ensures SortedByName(r)
    ensures multiset(r) == multiset(kw)
    decreases |kw|
  {
    if |kw| == 0 then []
    else
      var init := kw[..|kw| - 1];
      var last := kw[|kw| - 1];
      assert kw == init + [last];
      var sorted := Key(init);
      assert forall i :: 0 <= i < |sorted| ==> sorted[i].0 != last.0 by {
        forall i | 0 <= i < |sorted| ensures sorted[i].0 != last.0 {
          assert sorted[i] in multiset(init);
          var j :| 0 <= j < |init| && init[j] == sorted[i];
          assert kw[j] == init[j];
        }
      }
      InsertSorted(last, sorted);
      Insert(last, sorted)
  }

  /** Two non-empty sorted sequences of the same items start with the same item. */
  lemma SortedHeadsAgree<A>(a: Kwargs<A>, b: Kwargs<A>)
    requires SortedByName(a) && SortedByName(b)
    requires multiset(a) == multiset(b) && |a| > 0 && |b| > 0
    ensures a[0] == b[0]
  {
    assert a[0] in multiset(b) && b[0] in multiset(a);
    var j :| 0 <= j < |b| && b[j] == a[0];
    var i :| 0 <= i < |a| && a[i] == b[0];
    if j > 0 {
      if i > 0 {
        StrLtAsymmetric(a[0].0, a[i].0);
      } else {
        StrLtIrreflexive(b[0].0);
      }
    }
  }

  /** Two sequences sorted strictly by keyword that hold the same items are the same. */
  lemma {:induction false} SortedIsUnique<A>(a: Kwargs<A>, b: Kwargs<A>)
    requires SortedByName(a) && SortedByName(b)
    requires multiset(a) == multiset(b)
    ensures a == b
    decreases |a|
  {
    assert |a| == |multiset(a)| == |multiset(b)| == |b|;
    if |a| > 0 {
      SortedHeadsAgree(a, b);
      assert a == [a[0]] + a[1..] && b == [b[0]] + b[1..];
      assert multiset(a) == multiset{a[0]} + multiset(a[1..]);
      assert multiset(b) == multiset{b[0]} + multiset(b[1..]);
      assert multiset(a[1..]) == multiset(a) - multiset{a[0]};
      assert multiset(b[1..]) == multiset(b) - multiset{b[0]};
      SortedTail(a);
      SortedTail(b);
      SortedIsUnique(a[1..], b[1..]);
    }
  }

  /** The key does not depend on the order in which the keywords were passed. */
  lemma KeyIgnoresOrder<A>(kw1: Kwargs<A>, kw2: Kwargs<A>)
    requires DistinctNames(kw1) && DistinctNames(kw2)
    requires multiset(kw1) == multiset(kw2)
    ensures Key(kw1) == Key(kw2)
  {
    SortedIsUnique(Key(kw1), Key(kw2));
  }

  // ---------------------------------------------------------------------------
  // Memoisation

  /** The lookup both `Store.get` and the `_init_wrap` wrapper perform: a missing key is filled
      with the computed value; the result is the stored entry. */
  function Memo<K, V>(data: map<K, V>, key: K, computed: V): (r: (map<K, V>, V))
  {
    if key in data then (data, data[key]) else (data[key := computed], computed)
  }

  /** The first lookup stores what it returns and adds nothing else; a present key leaves the
      store as it is; a second lookup of the same key returns the same value and changes nothing,
      whatever it would compute. */
  lemma MemoIsStable<K, V>(data: map<K, V>, key: K, computed: V, again: V)
    ensures key in Memo(data, key, computed).0 && Memo(data, key, computed).0[key] == Memo(data, key, computed).1
    ensures Memo(data, key, computed).0.Keys == data.Keys + {key}
    ensures forall k :: k in data ==> Memo(data, key, computed).0[k] == data[k]
    ensures key in data ==> Memo(data, key, computed).1 == data[key]
    ensures key !in data ==> Memo(data, key, computed).1 == computed
    ensures Memo(Memo(data, key, computed).0, key, again) == (Memo(data, key, computed).0, Memo(data, key, computed).1)
  {
  }

  /** After a store of `value` under a key, a lookup of that key returns `value` and fills
      nothing. */
  lemma MemoAfterSet<K, V>(data: map<K, V>, key: K, value: V, computed: V)
    ensures Memo(data[key := value], key, computed) == (data[key := value], value)
  {
  }

  /** `Store`: a dictionary of computed values keyed by the sorted keyword items. */
  class Store<A(==), V> {
    var data: map<Kwargs<A>, V>
    const fill: Kwargs<A> -> V

    constructor (fill: Kwargs<A> -> V)
      ensures data == map[] && this.fill == fill
    {
      data := map[];
      this.fill := fill;
    }

    /** `get(**kwargs)`: `fill` is consulted only for a key not stored yet. */
    method Get(kwargs: Kwargs<A>) returns (v: V)
      requires DistinctNames(kwargs)
      modifies this
      ensures (data, v) == Memo(old(data), Key(kwargs), fill(kwargs))
    {
      var key := Key(kwargs);
      if key !in data {
        data := data[key := fill(kwargs)];
      }
      v := data[key];
    }

    /** `set(value, **kwargs)`: overwrites the entry of this key and no other. */
    method Set(value: V, kwargs: Kwargs<A>)
      requires DistinctNames(kwargs)
      modifies this
      ensures data == old(data)[Key(kwargs) := value]
    {
      var key := Key(kwargs);
      data := data[key := value];
    }
  }

  // ---------------------------------------------------------------------------
  // Role.make_capture and the Storage wrappers

  /** An `ElementInfo` as `make_capture` builds it. */
  datatype ElementInfo = ElementInfo(name: Option<string>, category: Option<CatValue>)

  /** A value in a wrapper's capture dictionary: one made by `make_capture`, or one captured by
      the pattern. */
  datatype Capture<C> = Info(info: ElementInfo) | Given(c: C)

  /** The role a decorator records on a method. `target` is a capture name (`NoName` for
      `None`). */
  datatype Role = Role(role: string, target: Name, targetName: Option<string>,
                       targetCategory: Option<CatValue>, full: bool)

  /** Python's truthiness of `target_name or target_category`: an empty name is false, and a
      category object is always true. */
  predicate Targets(r: Role) {
    (r.targetName.Some? && r.targetName.value != "") || r.targetCategory.Some?
  }

  /** `Role.make_capture()`. */
  function MakeCapture<C>(r: Role): (m: map<Name, Capture<C>>)
    ensures !Targets(r) ==> m == map[]
    ensures Targets(r) ==> m.Keys == {r.target}
                           && m[r.target] == Info(ElementInfo(r.targetName, r.targetCategory))
  {
    if Targets(r) then map[r.target := Info(ElementInfo(r.targetName, r.targetCategory))] else map[]
  }

  /** `{**fn._ptera_role.make_capture(), **cap}`: the captures passed in take precedence. */
  function Merged<C>(r: Role, cap: map<Name, Capture<C>>): map<Name, Capture<C>> {
    MakeCapture(r) + cap
  }

  /** Every passed capture is kept as it is, and the role's own entry fills in its target only
      when the pattern did not capture it. */
  lemma MergedPrefersPattern<C>(r: Role, cap: map<Name, Capture<C>>)
    ensures Merged(r, cap).Keys == cap.Keys + MakeCapture<C>(r).Keys
    ensures forall k :: k in cap ==> Merged(r, cap)[k] == cap[k]
    ensures Targets(r) && r.target !in cap ==>
              Merged(r, cap)[r.target] == Info(ElementInfo(r.targetName, r.targetCategory))
  {
  }

  /** `tuple(getattr(cap[k], field) for k, field in self._key_captures)`: a missing capture
      raises `KeyError` for the first capture name, in order, that is not there. */
  function KeyTuple<C, A>(keyCaptures: seq<(Name, string)>, cap: map<Name, Capture<C>>,
                          attr: (Capture<C>, string) -> A): (r: Result<seq<A>, Name>)
    ensures r.Ok? <==> forall i :: 0 <= i < |keyCaptures| ==> keyCaptures[i].0 in cap
    ensures r.Ok? ==> |r.value| == |keyCaptures| &&
                      forall i :: 0 <= i < |keyCaptures| ==> r.value[i] == attr(cap[keyCaptures[i].0], keyCaptures[i].1)
    ensures r.Err? ==> exists i :: 0 <= i < |keyCaptures| && keyCaptures[i].0 == r.error && r.error !in cap &&
                                   (forall j :: 0 <= j < i ==> keyCaptures[j].0 in cap)
    decreases |keyCaptures|
  {
    if |keyCaptures| == 0 then Ok([])
    else
      var (k, field) := keyCaptures[0];
      if k !in cap then Err(k)
      else
        var rest := KeyTuple(keyCaptures[1..], cap, attr);
        assert forall i :: 0 < i < |keyCaptures| ==> keyCaptures[i] == keyCaptures[1..][i - 1];
        if rest.Err? then
          assert exists i :: 0 <= i < |keyCaptures| && keyCaptures[i].0 == rest.error && rest.error !in cap &&
                             (forall j :: 0 <= j < i ==> keyCaptures[j].0 in cap) by {
            var i :| 0 <= i < |keyCaptures| - 1 && keyCaptures[1..][i].0 == rest.error && rest.error !in cap &&
                     (forall j :: 0 <= j < i ==> keyCaptures[1..][j].0 in cap);
            assert keyCaptures[i + 1].0 == rest.error;
            assert forall j :: 0 < j < i + 1 ==> keyCaptures[j] == keyCaptures[1..][j - 1];
          }
          Err(rest.error)
        else
          Ok([attr(cap[k], field)] + rest.value)
  }

  /** Why a wrapper call fails: a key capture is missing, or an update found no stored entry. */
  datatype WrapError = KeyError(missing: Name) | AssertionFailed

  /** The state a `Storage` keeps: the key captures its pattern selects and the store itself. */
  class Storage<C, A(==), V> {
    const keyCaptures: seq<(Name, string)>
    var store: map<seq<A>, V>

    /** The key captures are what `_prepare` derives from the pattern; they are given here. */
    constructor (keyCaptures: seq<(Name, string)>)
      ensures this.keyCaptures == keyCaptures && store == map[]
    {
      this.keyCaptures := keyCaptures;
      store := map[];
    }

    /** The `_init_wrap` wrapper: `initfn` runs only for a key tuple not stored yet. */
    method InitWrapped(r: Role, cap: map<Name, Capture<C>>, attr: (Capture<C>, string) -> A,
                       initfn: map<Name, Capture<C>> -> V) returns (res: Result<V, WrapError>)
      modifies this
      ensures KeyTuple(keyCaptures, Merged(r, cap), attr).Err? ==>
                res == Err(KeyError(KeyTuple(keyCaptures, Merged(r, cap), attr).error)) && store == old(store)
      ensures KeyTuple(keyCaptures, Merged(r, cap), attr).Ok? ==>
                var m := Memo(old(store), KeyTuple(keyCaptures, Merged(r, cap), attr).value, initfn(Merged(r, cap)));
                res == Ok(m.1) && store == m.0
    {
      var full := Merged(r, cap);
      var key := KeyTuple(keyCaptures, full, attr);
      if key.Err? {
        res := Err(KeyError(key.error));
        return;
      }
      if key.value !in store {
        store := store[key.value := initfn(full)];
      }
      res := Ok(store[key.value]);
    }

    /** The `_update_wrap` wrapper: the entry of the key tuple must exist already (the source
        asserts it) and is replaced by the updater's result. */
    method UpdateWrapped(r: Role, cap: map<Name, Capture<C>>, attr: (Capture<C>, string) -> A,
                         updatefn: map<Name, Capture<C>> -> V) returns (res: Result<(), WrapError>)
      modifies this
      ensures KeyTuple(keyCaptures, Merged(r, cap), attr).Err? ==>
                res == Err(KeyError(KeyTuple(keyCaptures, Merged(r, cap), attr).error)) && store == old(store)
      ensures KeyTuple(keyCaptures, Merged(r, cap), attr).Ok? ==>
                var key := KeyTuple(keyCaptures, Merged(r, cap), attr).value;
                && (res.Ok? <==> key in old(store))
                && (res.Err? ==> res.error == AssertionFailed && store == old(store))
                && (res.Ok? ==> store == old(store)[key := updatefn(Merged(r, cap))])
    {
      var full := Merged(r, cap);
      var key := KeyTuple(keyCaptures, full, attr);
      if key.Err? {
        res := Err(KeyError(key.error));
        return;
      }
      if key.value !in store {
        res := Err(AssertionFailed);
        return;
      }
      store := store[key.value := updatefn(full)];
      res := Ok(());
    }

    /** The `_value_wrap` wrapper: the valuer sees the merged captures, where a passed capture
        overrides the role's own entry (`MergedPrefersPattern`); with no `modifies` clause, the
        store is left as it was. */
    method ValueWrapped<R>(r: Role, cap: map<Name, Capture<C>>, valuefn: map<Name, Capture<C>> -> R)
      returns (res: R)
      ensures res == valuefn(Merged(r, cap))
    {
      res := valuefn(Merged(r, cap));
    }
  }
}
