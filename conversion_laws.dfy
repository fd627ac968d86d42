/**
 * What the converter promises: element-by-element conversion of lists,
 * sets and maps in both directions, the order of the checks in
 * `clojureToJava`, its behaviour on raw and wildcard collection types, and
 * the round trip of well-typed values through the store.
 */
module ConversionLaws {
  import opened Values
  import opened Transients
  import opened Conversions
  import Store
  import Numerics
  import DynamicObject

  /* ---------------- element by element, host to store ---------------- */

  /** Element `i` is the first one that fails to convert. */
  ghost predicate FirstClojureFailure(xs: seq<Value>, i: int) {
    && 0 <= i < |xs|
    && ToClojure(xs[i]).Err?
    && forall j :: 0 <= j < i ==> ToClojure(xs[j]).Ok?
  }

  /** Converting into a vector converts each element in place; the first failure is the one reported. */
  lemma {:induction false} ElementsToClojureEach(xs: seq<Value>)
    ensures var r := ElementsToClojure(Vector, xs);
      && (r.Ok? <==> forall i :: 0 <= i < |xs| ==> ToClojure(xs[i]).Ok?)
      && (r.Ok? ==> |r.value| == |xs| && forall i :: 0 <= i < |xs| ==> ToClojure(xs[i]) == Ok(r.value[i]))
      && (forall i :: FirstClojureFailure(xs, i) ==> r == Err(ToClojure(xs[i]).error))
  {
    if xs != [] {
      var init, last := xs[..|xs| - 1], xs[|xs| - 1];
      ElementsToClojureEach(init);
      assert forall i :: 0 <= i < |init| ==> init[i] == xs[i];
      forall i | FirstClojureFailure(xs, i)
        ensures ElementsToClojure(Vector, xs) == Err(ToClojure(xs[i]).error)
      {
        if i < |init| {
          assert FirstClojureFailure(init, i);
        }
      }
    }
  }

  /** Any collection kind fails exactly as a vector would and otherwise `conj!`s the vector's elements. */
  lemma {:induction false} ElementsToClojureByVector(kind: CollKind, xs: seq<Value>)
    ensures ElementsToClojure(kind, xs).Ok? == ElementsToClojure(Vector, xs).Ok?
    ensures ElementsToClojure(kind, xs).Err? ==> ElementsToClojure(kind, xs) == ElementsToClojure(Vector, xs)
    ensures ElementsToClojure(kind, xs).Ok? ==>
      ElementsToClojure(kind, xs).value == ConjAll(kind, ElementsToClojure(Vector, xs).value)
  {
    if xs != [] {
      var init := xs[..|xs| - 1];
      ElementsToClojureByVector(kind, init);
      if ElementsToClojure(Vector, init).Ok? {
        ConjAllVector(ElementsToClojure(Vector, init).value);
      }
    }
  }

  /**
   * `javaToClojure` of a list is a vector of the same length and order whose
   * element `i` is the conversion of element `i`; it fails with the first
   * element that fails.
   */
  lemma ListToClojure(xs: seq<Value>)
    ensures var r := ToClojure(List(xs));
      && (r.Ok? <==> forall i :: 0 <= i < |xs| ==> ToClojure(xs[i]).Ok?)
      && (r.Ok? ==> r.value.List? && |r.value.items| == |xs|
                    && forall i :: 0 <= i < |xs| ==> ToClojure(xs[i]) == Ok(r.value.items[i]))
      && (forall i :: FirstClojureFailure(xs, i) ==> r == Err(ToClojure(xs[i]).error))
  {
    ElementsToClojureEach(xs);
  }

  /**
   * `javaToClojure` of a set is a set of converted elements, no two of them
   * equal, holding an element equal to each converted element; it fails
   * with the first element that fails.
   */
  lemma SetToClojure(xs: seq<Value>)
    ensures var r := ToClojure(Set(xs));
      && (r.Ok? <==> forall i :: 0 <= i < |xs| ==> ToClojure(xs[i]).Ok?)
      && (r.Ok? ==> r.value.Set? && NoDuplicates(r.value.items)
                    && (forall y :: y in r.value.items ==> exists i :: 0 <= i < |xs| && ToClojure(xs[i]) == Ok(y))
                    && forall i :: 0 <= i < |xs| ==> Holds(r.value.items, ToClojure(xs[i]).value))
      && (forall i :: FirstClojureFailure(xs, i) ==> r == Err(ToClojure(xs[i]).error))
  {
    ElementsToClojureEach(xs);
    ElementsToClojureByVector(HashSet, xs);
    if ElementsToClojure(Vector, xs).Ok? {
      var ys := ElementsToClojure(Vector, xs).value;
      ConjAllSet(ys);
      forall y | y in ys ensures exists i :: 0 <= i < |xs| && ToClojure(xs[i]) == Ok(y) {
        var i :| 0 <= i < |ys| && ys[i] == y;
        assert ToClojure(xs[i]) == Ok(y);
      }
    }
  }

  /** Each entry converted on its own, in order; the reference for the map conversion. */
  function EachEntryToClojure(es: seq<Entry>): Result<seq<Entry>> {
    if es == [] then Ok([])
    else
      var acc :- EachEntryToClojure(es[..|es| - 1]);
      var e :- EntryToClojure(es[|es| - 1]);
      Ok(acc + [e])
  }

  lemma {:induction false} EachEntryToClojureIs(es: seq<Entry>)
    ensures var r := EachEntryToClojure(es);
      && (r.Ok? <==> forall i :: 0 <= i < |es| ==> EntryToClojure(es[i]).Ok?)
      && (r.Ok? ==> |r.value| == |es| && forall i :: 0 <= i < |es| ==> EntryToClojure(es[i]) == Ok(r.value[i]))
  {
    if es != [] {
      var init := es[..|es| - 1];
      EachEntryToClojureIs(init);
      assert forall i :: 0 <= i < |init| ==> init[i] == es[i];
    }
  }

  /** The map conversion is `assoc!` of the separately converted entries, in order. */
  lemma {:induction false} EntriesToClojureIsAssocAll(es: seq<Entry>)
    ensures EntriesToClojure(es).Ok? == EachEntryToClojure(es).Ok?
    ensures EntriesToClojure(es).Ok? ==> EntriesToClojure(es).value == AssocAll(EachEntryToClojure(es).value)
  {
    if es != [] {
      var init := es[..|es| - 1];
      EntriesToClojureIsAssocAll(init);
      if EachEntryToClojure(es).Ok? {
        var cs := EachEntryToClojure(es).value;
        assert cs[..|cs| - 1] == EachEntryToClojure(init).value;
      }
    }
  }

  /**
   * `javaToClojure` of a map converts every key and value; the result has
   * no repeated key, each key reads as the last entry converted to it, and
   * when the converted keys are distinct the result is exactly the
   * converted entries.
   */
  lemma MapToClojureEntries(es: seq<Entry>, m: Meta)
    ensures var r := ToClojure(Map(es, m));
      && (r.Ok? <==> forall i :: 0 <= i < |es| ==> ToClojure(es[i].key).Ok? && ToClojure(es[i].val).Ok?)
      && (r.Ok? ==>
            EachEntryToClojure(es).Ok? &&
            var cs := EachEntryToClojure(es).value;
            && |cs| == |es|
            && (forall i :: 0 <= i < |es| ==> ToClojure(es[i].key) == Ok(cs[i].key) && ToClojure(es[i].val) == Ok(cs[i].val))
            && r.value.Map? && r.value.meta == NoMeta
            && Store.DistinctKeys(r.value.entries)
            && (forall k :: Store.Get(r.value.entries, k) == LastValue(cs, k))
            && (Store.DistinctKeys(cs) ==> r.value.entries == cs))
  {
    EachEntryToClojureIs(es);
    EntriesToClojureIsAssocAll(es);
    if EachEntryToClojure(es).Ok? {
      var cs := EachEntryToClojure(es).value;
      AssocAllLastWins(cs);
      if Store.DistinctKeys(cs) {
        AssocAllDistinct(cs);
      }
    }
  }

  /**
   * A typed view becomes exactly its map's entries with `:type` metadata
   * naming its type; numbers are widened without changing their value;
   * every other non-collection is returned as it is.
   */
  lemma ToClojureShape(v: Value)
    ensures v.Dyn? && v.backing.Map? ==> ToClojure(v) == Ok(Map(v.backing.entries, TypeMeta(v.ty)))
    ensures v.Dyn? && !v.backing.Map? ==> ToClojure(v).Err?
    ensures v.Num? ==> ToClojure(v).Ok? && ToClojure(v).value.Num? && ToClojure(v).value.n == v.n
    ensures IsScalar(v) ==> ToClojure(v) == Ok(v)
  {
  }

  /* ---------------- clojureToJava ---------------- */

  /**
   * A numeric class target downconverts and a typed-view target wraps
   * before any collection is looked at: a collection under a numeric
   * target fails the cast, and under a typed-view target it is wrapped as
   * it is, unconverted.
   */
  lemma TargetClassFirst(v: Value, c: ClassKind)
    requires v.List? || v.Set? || v.Map?
    ensures Numerics.IsNumeric(c) ==> ToJava(v, Class(c)) == Err(ClassCast)
    ensures c.DynClass? ==> ToJava(v, Class(c)) == Ok(Dyn(v, c.name))
  {
  }

  ghost predicate FirstJavaFailure(xs: seq<Value>, t: JType, i: int) {
    && 0 <= i < |xs|
    && ElementToJava(xs[i], t).Err?
    && forall j :: 0 <= j < i ==> ElementToJava(xs[j], t).Ok?
  }

  lemma {:induction false} ElementsToJavaEach(xs: seq<Value>, t: JType)
    ensures var r := ElementsToJava(Vector, xs, t);
      && (r.Ok? <==> forall i :: 0 <= i < |xs| ==> ElementToJava(xs[i], t).Ok?)
      && (r.Ok? ==> |r.value| == |xs| && forall i :: 0 <= i < |xs| ==> ElementToJava(xs[i], t) == Ok(r.value[i]))
      && (forall i :: FirstJavaFailure(xs, t, i) ==> r == Err(ElementToJava(xs[i], t).error))
  {
    if xs != [] {
      var init := xs[..|xs| - 1];
      ElementsToJavaEach(init, t);
      assert forall i :: 0 <= i < |init| ==> init[i] == xs[i];
      forall i | FirstJavaFailure(xs, t, i)
        ensures ElementsToJava(Vector, xs, t) == Err(ElementToJava(xs[i], t).error)
      {
        if i < |init| {
          assert FirstJavaFailure(init, t, i);
        }
      }
    }
  }

  lemma {:induction false} ElementsToJavaByVector(kind: CollKind, xs: seq<Value>, t: JType)
    ensures ElementsToJava(kind, xs, t).Ok? == ElementsToJava(Vector, xs, t).Ok?
    ensures ElementsToJava(kind, xs, t).Err? ==> ElementsToJava(kind, xs, t) == ElementsToJava(Vector, xs, t)
    ensures ElementsToJava(kind, xs, t).Ok? ==>
      ElementsToJava(kind, xs, t).value == ConjAll(kind, ElementsToJava(Vector, xs, t).value)
  {
    if xs != [] {
      var init := xs[..|xs| - 1];
      ElementsToJavaByVector(kind, init, t);
      if ElementsToJava(Vector, init, t).Ok? {
        ConjAllVector(ElementsToJava(Vector, init, t).value);
      }
    }
  }

  /**
   * A list under a parameterized type converts each element with the
   * first type argument and keeps the order.
   */
  lemma ListToJava(xs: seq<Value>, base: ClassKind, args: seq<JType>)
    requires |args| > 0
    ensures var r := ToJava(List(xs), Param(base, args));
      && (r.Ok? <==> forall i :: 0 <= i < |xs| ==> ToJava(xs[i], args[0]).Ok?)
      && (r.Ok? ==> r.value.List? && |r.value.items| == |xs|
                    && forall i :: 0 <= i < |xs| ==> ToJava(xs[i], args[0]) == Ok(r.value.items[i]))
  {
    ElementsToJavaEach(xs, Param(base, args));
  }

  /**
   * A set under a parameterized type is a set of converted elements, no two
   * of them equal, holding an element equal to each converted element.
   */
  lemma SetToJava(xs: seq<Value>, base: ClassKind, args: seq<JType>)
    requires |args| > 0
    ensures var r := ToJava(Set(xs), Param(base, args));
      && (r.Ok? <==> forall i :: 0 <= i < |xs| ==> ToJava(xs[i], args[0]).Ok?)
      && (r.Ok? ==> r.value.Set? && NoDuplicates(r.value.items)
                    && (forall y :: y in r.value.items ==> exists i :: 0 <= i < |xs| && ToJava(xs[i], args[0]) == Ok(y))
                    && forall i :: 0 <= i < |xs| ==> Holds(r.value.items, ToJava(xs[i], args[0]).value))
  {
    var t := Param(base, args);
    ElementsToJavaEach(xs, t);
    ElementsToJavaByVector(HashSet, xs, t);
    if ElementsToJava(Vector, xs, t).Ok? {
      var ys := ElementsToJava(Vector, xs, t).value;
      ConjAllSet(ys);
      forall y | y in ys ensures exists i :: 0 <= i < |xs| && ToJava(xs[i], args[0]) == Ok(y) {
        var i :| 0 <= i < |ys| && ys[i] == y;
        assert ElementToJava(xs[i], t) == Ok(y);
      }
      forall i | 0 <= i < |xs| ensures ToJava(xs[i], args[0]) == Ok(ys[i]) {
        assert ElementToJava(xs[i], t) == Ok(ys[i]);
      }
    }
  }

  /**
   * A non-empty list or set whose declared type is not parameterized (a
   * raw collection, `Object`, a type variable) fails as unsupported; an
   * empty one converts to an empty one. The comment at the head of
   * `clojureToJava` promises that raw types are left alone.
   */
  lemma RawCollectionToJava(kind: CollKind, xs: seq<Value>, t: JType)
    requires !t.Param?
    requires t.Class? ==> !Numerics.IsNumeric(t.c) && !t.c.DynClass?
    ensures ToJava(Persistent(kind, xs), t) == if xs == [] then Ok(Persistent(kind, [])) else Err(UnsupportedOperation)
  {
    if xs != [] {
      assert xs[..1][..0] == [];
      ElementsToJavaStops(kind, xs, t, 1);
    }
  }

  /**
   * Reference meaning of one element under a wildcard type argument: an
   * empty list or set and every non-collection pass through unchanged
   * (numbers are not narrowed, views are not rebuilt), a non-empty list or
   * set is unsupported, and any map, even an empty one, fails the cast to
   * a parameterized type.
   */
  function UnderWildcard(x: Value): Result<Value> {
    if x.List? || x.Set? then (if x.items == [] then Ok(x) else Err(UnsupportedOperation))
    else if x.Map? then Err(ClassCast)
    else Ok(x)
  }

  /** Each element of a `List<?>` converts as `UnderWildcard` says. */
  lemma WildcardElement(x: Value, base: ClassKind)
    ensures ElementToJava(x, Param(base, [Wildcard])) == UnderWildcard(x)
  {
    assert ElementToJava(x, Param(base, [Wildcard])) == ToJava(x, Wildcard);
    if x.List? {
      RawCollectionToJava(Vector, x.items, Wildcard);
    } else if x.Set? {
      RawCollectionToJava(HashSet, x.items, Wildcard);
      assert Persistent(HashSet, x.items) == x;
    } else if x.Map? {
      assert ToJava(x, Wildcard) == MapToJava(x.entries, Wildcard);
    }
  }

  /**
   * A list under a wildcard element type (`List<?>`) converts exactly when
   * every element does under `UnderWildcard`, and then comes back unchanged;
   * otherwise it fails with the first failing element's error. In
   * particular an all-scalar list is returned as it is, and a nested
   * non-empty list or set fails as unsupported. The comment at the head of
   * `clojureToJava` promises that wildcard types always fail.
   */
  lemma WildcardElements(xs: seq<Value>, base: ClassKind)
    ensures var r := ToJava(List(xs), Param(base, [Wildcard]));
      && (r.Ok? <==> forall i :: 0 <= i < |xs| ==> UnderWildcard(xs[i]).Ok?)
      && (r.Ok? ==> r == Ok(List(xs)))
      && forall i :: 0 <= i < |xs| && UnderWildcard(xs[i]).Err?
                     && (forall j :: 0 <= j < i ==> UnderWildcard(xs[j]).Ok?) ==>
           r == Err(UnderWildcard(xs[i]).error)
    ensures (forall i :: 0 <= i < |xs| ==> IsScalar(xs[i])) ==>
      ToJava(List(xs), Param(base, [Wildcard])) == Ok(List(xs))
    ensures forall i :: 0 <= i < |xs| && (xs[i].List? || xs[i].Set?) && xs[i].items != []
                        && (forall j :: 0 <= j < i ==> IsScalar(xs[j])) ==>
      ToJava(List(xs), Param(base, [Wildcard])) == Err(UnsupportedOperation)
  {
    var t := Param(base, [Wildcard]);
    ElementsToJavaEach(xs, t);
    forall i | 0 <= i < |xs| ensures ElementToJava(xs[i], t) == UnderWildcard(xs[i]) {
      WildcardElement(xs[i], base);
    }
    if forall i :: 0 <= i < |xs| ==> UnderWildcard(xs[i]).Ok? {
      var ys := ElementsToJava(Vector, xs, t).value;
      assert ys == xs;
    }
    forall i | 0 <= i < |xs| && UnderWildcard(xs[i]).Err?
                 && (forall j :: 0 <= j < i ==> UnderWildcard(xs[j]).Ok?)
      ensures ToJava(List(xs), t) == Err(UnderWildcard(xs[i]).error)
    {
      assert FirstJavaFailure(xs, t, i);
    }
  }

  /** Each entry converted on its own with the key and value types; the reference for the map conversion. */
  function EachEntryToJava(es: seq<Entry>, kt: JType, vt: JType): Result<seq<Entry>> {
    if es == [] then Ok([])
    else
      var acc :- EachEntryToJava(es[..|es| - 1], kt, vt);
      var e :- EntryToJava(es[|es| - 1], kt, vt);
      Ok(acc + [e])
  }

  lemma {:induction false} EachEntryToJavaIs(es: seq<Entry>, kt: JType, vt: JType)
    ensures var r := EachEntryToJava(es, kt, vt);
      && (r.Ok? <==> forall i :: 0 <= i < |es| ==> EntryToJava(es[i], kt, vt).Ok?)
      && (r.Ok? ==> |r.value| == |es| && forall i :: 0 <= i < |es| ==> EntryToJava(es[i], kt, vt) == Ok(r.value[i]))
  {
    if es != [] {
      var init := es[..|es| - 1];
      EachEntryToJavaIs(init, kt, vt);
      assert forall i :: 0 <= i < |init| ==> init[i] == es[i];
    }
  }

  lemma {:induction false} EntriesToJavaIsAssocAll(es: seq<Entry>, kt: JType, vt: JType)
    ensures EntriesToJava(es, kt, vt).Ok? == EachEntryToJava(es, kt, vt).Ok?
    ensures EntriesToJava(es, kt, vt).Ok? ==> EntriesToJava(es, kt, vt).value == AssocAll(EachEntryToJava(es, kt, vt).value)
  {
    if es != [] {
      var init := es[..|es| - 1];
      EntriesToJavaIsAssocAll(init, kt, vt);
      if EachEntryToJava(es, kt, vt).Ok? {
        var cs := EachEntryToJava(es, kt, vt).value;
        assert cs[..|cs| - 1] == EachEntryToJava(init, kt, vt).value;
      }
    }
  }

  /** The entries of a map converted with key type `kt` and value type `vt`. */
  lemma EntriesToJavaEach(es: seq<Entry>, kt: JType, vt: JType)
    ensures var r := EntriesToJava(es, kt, vt);
      && (r.Ok? <==> forall i :: 0 <= i < |es| ==> ToJava(es[i].key, kt).Ok? && ToJava(es[i].val, vt).Ok?)
      && (r.Ok? ==>
            EachEntryToJava(es, kt, vt).Ok? &&
            var cs := EachEntryToJava(es, kt, vt).value;
            && |cs| == |es|
            && (forall i :: 0 <= i < |es| ==> ToJava(es[i].key, kt) == Ok(cs[i].key) && ToJava(es[i].val, vt) == Ok(cs[i].val))
            && Store.DistinctKeys(r.value)
            && (forall k :: Store.Get(r.value, k) == LastValue(cs, k))
            && (Store.DistinctKeys(cs) ==> r.value == cs))
  {
    EachEntryToJavaIs(es, kt, vt);
    EntriesToJavaIsAssocAll(es, kt, vt);
    if EachEntryToJava(es, kt, vt).Ok? {
      var cs := EachEntryToJava(es, kt, vt).value;
      AssocAllLastWins(cs);
      if Store.DistinctKeys(cs) {
        AssocAllDistinct(cs);
      }
    }
  }

  /**
   * A map under a declared type that is not parameterized fails the cast,
   * even when empty; with fewer than two type arguments it fails indexing
   * them. Otherwise keys convert with the first argument and values with
   * the second, and each key reads as the last entry converted to it.
   */
  lemma MapToJavaEntries(es: seq<Entry>, m: Meta, t: JType)
    requires !t.Class? || (!Numerics.IsNumeric(t.c) && !t.c.DynClass?)
    ensures !t.Param? ==> ToJava(Map(es, m), t) == Err(ClassCast)
    ensures t.Param? && |t.args| < 2 ==> ToJava(Map(es, m), t) == Err(IndexOutOfBounds)
    ensures t.Param? && |t.args| >= 2 ==>
      var r := ToJava(Map(es, m), t);
      && (r.Ok? <==> forall i :: 0 <= i < |es| ==> ToJava(es[i].key, t.args[0]).Ok? && ToJava(es[i].val, t.args[1]).Ok?)
      && (r.Ok? ==>
            EachEntryToJava(es, t.args[0], t.args[1]).Ok? &&
            var cs := EachEntryToJava(es, t.args[0], t.args[1]).value;
            && |cs| == |es|
            && (forall i :: 0 <= i < |es| ==>
                  ToJava(es[i].key, t.args[0]) == Ok(cs[i].key) && ToJava(es[i].val, t.args[1]) == Ok(cs[i].val))
            && r.value.Map? && r.value.meta == NoMeta && Store.DistinctKeys(r.value.entries)
            && (forall k :: Store.Get(r.value.entries, k) == LastValue(cs, k))
            && (Store.DistinctKeys(cs) ==> r.value.entries == cs))
  {
    if t.Param? && |t.args| >= 2 {
      EntriesToJavaEach(es, t.args[0], t.args[1]);
    }
  }

  /* ---------------- the round trip ---------------- */

  /**
   * `v` is a host value an accessor declared as `t` can return: a number
   * of the declared width, a non-collection scalar under any other class,
   * or a list of such values under `List<T>`; null fits all of them.
   */
  ghost predicate Typed(v: Value, t: JType)
    decreases v
  {
    match t
    case Class(NumClass(k, _)) => v.Null? || (v.Num? && v.kind == k && Numerics.Fits(k, v.n))
    case Class(OtherClass(_)) => IsScalar(v)
    case Param(ListClass, args) =>
      && |args| == 1
      && (v.Null? || (v.List? && forall i :: 0 <= i < |v.items| ==> Typed(v.items[i], args[0])))
    case _ => false
  }

  /** Storing a well-typed value and reading it back under its declared type gives the value back. */
  lemma {:induction false} RoundTrip(v: Value, t: JType)
    requires Typed(v, t)
    ensures ToClojure(v).Ok? && ToJava(ToClojure(v).value, t) == Ok(v)
    decreases v
  {
    match t
    case Class(c) =>
      if c.NumClass? && v.Num? {
        Numerics.DownconvertUpconvert(c.kind, v.n);
      }
    case Param(_, args) =>
      if v.List? {
        var xs := v.items;
        forall i | 0 <= i < |xs|
          ensures ToClojure(xs[i]).Ok? && ToJava(ToClojure(xs[i]).value, args[0]) == Ok(xs[i])
        {
          RoundTrip(xs[i], args[0]);
        }
        ElementsToClojureEach(xs);
        var ys := ElementsToClojure(Vector, xs).value;
        ElementsToJavaEach(ys, t);
        var zs := ElementsToJava(Vector, ys, t).value;
        assert zs == xs;
      }
  }
}
