/**
 * The type-directed converter between host values and the values stored in
 * a typed view's map.
 *
 * `ToClojure` (`javaToClojure`) rewrites a host value for storage: integral
 * numbers are upconverted, a typed view becomes its map carrying `:type`
 * metadata, and lists, sets and maps are rebuilt element by element.
 * `ToJava` (`clojureToJava`) goes the other way, steered by the declared
 * return type of the accessor.
 *
 * The functions are the specification; the four `Convert...Types` methods
 * are the source's transient-filling loops, each proved equal to its function.
 */
module Conversions {
  import opened Values
  import opened Transients
  import Store
  import Numerics
  import DynamicObject

  /* ---------------- javaToClojure ---------------- */

  /**
   * `javaToClojure`: numbers widen, a view becomes its map with `:type`
   * metadata, lists, sets and maps are rebuilt element by element, and
   * anything else is returned as it is. The shape is kept: a list comes
   * back a vector, a set a set, a map or a view a map.
   */
  function ToClojure(v: Value): (r: Result<Value>)
    ensures r.Ok? ==> (r.value.List? <==> v.List?) && (r.value.Set? <==> v.Set?)
                      && (r.value.Map? <==> v.Map? || v.Dyn?) && (r.value.Num? <==> v.Num?)
    decreases v, 2
  {
    match v
    case Num(_, _) => Ok(Numerics.Upconvert(v))
    case Dyn(m, ty) => UnwrapAndAnnotate(m, ty)
    case List(xs) => CollectionToClojure(Vector, xs)
    case Set(xs) => CollectionToClojure(HashSet, xs)
    case Map(es, _) => MapToClojure(es)
    case _ => Ok(v)
  }

  /**
   * `unwrapAndAnnotateDynamicObject`: the view's map, unconverted, with
   * `:type` metadata naming the view's type. Attaching metadata fails on
   * null and on anything that is not a map.
   */
  function UnwrapAndAnnotate(m: Value, ty: string): Result<Value> {
    match m
    case Map(es, _) => Ok(Map(es, TypeMeta(ty)))
    case Null => Err(NullPointer)
    case _ => Err(ClassCast)
  }

  /** `convertCollectionToClojureTypes`, as a function. */
  function CollectionToClojure(kind: CollKind, xs: seq<Value>): Result<Value>
    decreases xs, 1
  {
    var items :- ElementsToClojure(kind, xs);
    Ok(Persistent(kind, items))
  }

  /** The transient after `conj!` of every converted element of `xs`; the first failure wins. */
  function ElementsToClojure(kind: CollKind, xs: seq<Value>): Result<seq<Value>>
    decreases xs, 0
  {
    if xs == [] then Ok([])
    else
      var acc :- ElementsToClojure(kind, xs[..|xs| - 1]);
      var x :- ToClojure(xs[|xs| - 1]);
      Ok(Conj(kind, acc, x))
  }

  /** `convertMapToClojureTypes`, as a function; the result carries no metadata. */
  function MapToClojure(es: seq<Entry>): Result<Value>
    decreases es, 1
  {
    var entries :- EntriesToClojure(es);
    Ok(Map(entries, NoMeta))
  }

  /** The transient after `assoc!` of every converted entry of `es`. */
  function EntriesToClojure(es: seq<Entry>): Result<seq<Entry>>
    decreases es, 0
  {
    if es == [] then Ok([])
    else
      var acc :- EntriesToClojure(es[..|es| - 1]);
      var e :- EntryToClojure(es[|es| - 1]);
      Ok(Store.Assoc(acc, e.key, e.val))
  }

  /** One entry: the key is converted before the value. */
  function EntryToClojure(e: Entry): Result<Entry>
    decreases e, 3
  {
    assert e.key < e && e.val < e;
    var k :- ToClojure(e.key);
    var v :- ToClojure(e.val);
    Ok(Entry(k, v))
  }

  /* ---------------- clojureToJava ---------------- */

  /**
   * `clojureToJava`: a numeric class target downconverts and a typed-view
   * target wraps, whatever the value; otherwise collections are rebuilt
   * under the declared type and anything else is returned as it is.
   */
  function ToJava(v: Value, t: JType): (r: Result<Value>)
    ensures r.Ok? && t.Class? && Numerics.IsNumeric(t.c) ==>
      r.value.Null? || (r.value.Num? && r.value.kind == t.c.kind)
    ensures r.Ok? && t.Class? && t.c.DynClass? ==> r.value.Dyn? && r.value.ty == t.c.name
    ensures r.Ok? && !(t.Class? && (Numerics.IsNumeric(t.c) || t.c.DynClass?)) ==>
      (r.value.List? <==> v.List?) && (r.value.Set? <==> v.Set?) && (r.value.Map? <==> v.Map?)
    decreases v, 2
  {
    if t.Class? && Numerics.IsNumeric(t.c) then Numerics.Downconvert(t.c.kind, v)
    else if t.Class? && t.c.DynClass? then Ok(DynamicObject.Wrap(v, t.c.name))
    else
      match v
      case List(xs) => CollectionToJava(Vector, xs, t)
      case Set(xs) => CollectionToJava(HashSet, xs, t)
      case Map(es, _) => MapToJava(es, t)
      case _ => Ok(v)
  }

  /** `convertCollectionToJavaTypes`, as a function. */
  function CollectionToJava(kind: CollKind, xs: seq<Value>, t: JType): Result<Value>
    decreases xs, 1
  {
    var items :- ElementsToJava(kind, xs, t);
    Ok(Persistent(kind, items))
  }

  function ElementsToJava(kind: CollKind, xs: seq<Value>, t: JType): Result<seq<Value>>
    decreases xs, 0
  {
    if xs == [] then Ok([])
    else
      var acc :- ElementsToJava(kind, xs[..|xs| - 1], t);
      var x :- ElementToJava(xs[|xs| - 1], t);
      Ok(Conj(kind, acc, x))
  }

  /**
   * `convertCollectionElementToJavaTypes`: only a parameterized collection
   * type says what its elements are; its first type argument is used, and
   * one with no arguments fails indexing it.
   */
  function ElementToJava(x: Value, t: JType): Result<Value>
    decreases x, 3
  {
    match t
    case Param(_, args) => if |args| == 0 then Err(IndexOutOfBounds) else ToJava(x, args[0])
    case _ => Err(UnsupportedOperation)
  }

  /**
   * `convertMapToJavaTypes`: the declared type is cast to a parameterized
   * type and both type arguments are read before any entry is looked at.
   */
  function MapToJava(es: seq<Entry>, t: JType): Result<Value>
    decreases es, 1
  {
    if !t.Param? then Err(ClassCast)
    else if |t.args| < 2 then Err(IndexOutOfBounds)
    else
      var entries :- EntriesToJava(es, t.args[0], t.args[1]);
      Ok(Map(entries, NoMeta))
  }

  function EntriesToJava(es: seq<Entry>, kt: JType, vt: JType): Result<seq<Entry>>
    decreases es, 0
  {
    if es == [] then Ok([])
    else
      var acc :- EntriesToJava(es[..|es| - 1], kt, vt);
      var e :- EntryToJava(es[|es| - 1], kt, vt);
      Ok(Store.Assoc(acc, e.key, e.val))
  }

  function EntryToJava(e: Entry, kt: JType, vt: JType): Result<Entry>
    decreases e, 3
  {
    assert e.key < e && e.val < e;
    var k :- ToJava(e.key, kt);
    var v :- ToJava(e.val, vt);
    Ok(Entry(k, v))
  }

  /* ---------------- the transient-filling loops ---------------- */

  method ConvertCollectionToClojureTypes(coll: seq<Value>, kind: CollKind) returns (r: Result<Value>)
    ensures r == CollectionToClojure(kind, coll)
  {
    var ret: seq<Value> := [];
    var i := 0;
    while i < |coll|
      invariant 0 <= i <= |coll|
      invariant ElementsToClojure(kind, coll[..i]) == Ok(ret)
    {
      var x := ToClojure(coll[i]);
      assert coll[..i + 1][..i] == coll[..i];
      if x.Err? {
        ElementsToClojureStops(kind, coll, i + 1);
        return Err(x.error);
      }
      ret := Conj(kind, ret, x.value);
      i := i + 1;
    }
    assert coll[..i] == coll;
    r := Ok(Persistent(kind, ret));
  }

  method ConvertMapToClojureTypes(m: seq<Entry>) returns (r: Result<Value>)
    ensures r == MapToClojure(m)
  {
    var ret: seq<Entry> := [];
    var i := 0;
    while i < |m|
      invariant 0 <= i <= |m|
      invariant EntriesToClojure(m[..i]) == Ok(ret)
    {
      assert m[..i + 1][..i] == m[..i];
      var k := ToClojure(m[i].key);
      if k.Err? {
        EntriesToClojureStops(m, i + 1);
        return Err(k.error);
      }
      var v := ToClojure(m[i].val);
      if v.Err? {
        EntriesToClojureStops(m, i + 1);
        return Err(v.error);
      }
      ret := Store.Assoc(ret, k.value, v.value);
      i := i + 1;
    }
    assert m[..i] == m;
    r := Ok(Map(ret, NoMeta));
  }

  method ConvertCollectionToJavaTypes(coll: seq<Value>, kind: CollKind, t: JType) returns (r: Result<Value>)
    ensures r == CollectionToJava(kind, coll, t)
  {
    var ret: seq<Value> := [];
    var i := 0;
    while i < |coll|
      invariant 0 <= i <= |coll|
      invariant ElementsToJava(kind, coll[..i], t) == Ok(ret)
    {
      var x := ElementToJava(coll[i], t);
      assert coll[..i + 1][..i] == coll[..i];
      if x.Err? {
        ElementsToJavaStops(kind, coll, t, i + 1);
        return Err(x.error);
      }
      ret := Conj(kind, ret, x.value);
      i := i + 1;
    }
    assert coll[..i] == coll;
    r := Ok(Persistent(kind, ret));
  }

  method ConvertMapToJavaTypes(m: seq<Entry>, t: JType) returns (r: Result<Value>)
    ensures r == MapToJava(m, t)
  {
    if !t.Param? {
      return Err(ClassCast);
    }
    if |t.args| < 2 {
      return Err(IndexOutOfBounds);
    }
    var keyType, valType := t.args[0], t.args[1];
    var ret: seq<Entry> := [];
    var i := 0;
    while i < |m|
      invariant 0 <= i <= |m|
      invariant EntriesToJava(m[..i], keyType, valType) == Ok(ret)
    {
      assert m[..i + 1][..i] == m[..i];
      var k := ToJava(m[i].key, keyType);
      if k.Err? {
        EntriesToJavaStops(m, keyType, valType, i + 1);
        return Err(k.error);
      }
      var v := ToJava(m[i].val, valType);
      if v.Err? {
        EntriesToJavaStops(m, keyType, valType, i + 1);
        return Err(v.error);
      }
      ret := Store.Assoc(ret, k.value, v.value);
      i := i + 1;
    }
    assert m[..i] == m;
    r := Ok(Map(ret, NoMeta));
  }

  /* ---------------- a failure ends each loop ---------------- */

  lemma {:induction false} ElementsToClojureStops(kind: CollKind, xs: seq<Value>, n: nat)
    requires n <= |xs| && ElementsToClojure(kind, xs[..n]).Err?
    ensures ElementsToClojure(kind, xs) == ElementsToClojure(kind, xs[..n])
    decreases |xs|
  {
    if n == |xs| {
      assert xs[..n] == xs;
    } else {
      var init := xs[..|xs| - 1];
      assert init[..n] == xs[..n];
      ElementsToClojureStops(kind, init, n);
    }
  }

  lemma {:induction false} EntriesToClojureStops(es: seq<Entry>, n: nat)
    requires n <= |es| && EntriesToClojure(es[..n]).Err?
    ensures EntriesToClojure(es) == EntriesToClojure(es[..n])
    decreases |es|
  {
    if n == |es| {
      assert es[..n] == es;
    } else {
      var init := es[..|es| - 1];
      assert init[..n] == es[..n];
      EntriesToClojureStops(init, n);
    }
  }

  lemma {:induction false} ElementsToJavaStops(kind: CollKind, xs: seq<Value>, t: JType, n: nat)
    requires n <= |xs| && ElementsToJava(kind, xs[..n], t).Err?
    ensures ElementsToJava(kind, xs, t) == ElementsToJava(kind, xs[..n], t)
    decreases |xs|
  {
    if n == |xs| {
      assert xs[..n] == xs;
    } else {
      var init := xs[..|xs| - 1];
      assert init[..n] == xs[..n];
      ElementsToJavaStops(kind, init, t, n);
    }
  }

  lemma {:induction false} EntriesToJavaStops(es: seq<Entry>, kt: JType, vt: JType, n: nat)
    requires n <= |es| && EntriesToJava(es[..n], kt, vt).Err?
    ensures EntriesToJava(es, kt, vt) == EntriesToJava(es[..n], kt, vt)
    decreases |es|
  {
    if n == |es| {
      assert es[..n] == es;
    } else {
      var init := es[..|es| - 1];
      assert init[..n] == es[..n];
      EntriesToJavaStops(init, kt, vt, n);
    }
  }
}
