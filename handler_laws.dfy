/**
 * What the invocation handler promises: the builder rule and its
 * precedence, assoc against assocEx, key removal, map equality, the order
 * of field lookup, `@Key` prefixing, integer narrowing, and the two places
 * where the code departs from the interface it implements.
 */
module HandlerLaws {
  import opened Values
  import opened InvocationHandler
  import Store
  import Numerics
  import DynamicObject

  /** The names `invoke` handles itself before falling back to a field lookup. */
  predicate IsNamedOperation(name: string) {
    name in {"getMap", "getType", "assoc", "assocEx", "dissoc", "toString", "hashCode",
             "prettyPrint", "toFormattedString", "equals"}
  }

  /** A return type that `getValueFor` hands back without narrowing or wrapping. */
  predicate PlainReturn(c: ClassKind) {
    !c.DynClass? && !(c.NumClass? && (c.kind == Int || c.kind == Short))
  }

  /**
   * What an accessor with return type `rt` hands back for the value it
   * found: int and short accessors narrow, typed-view accessors wrap, every
   * other accessor returns the value as it is.
   */
  function AsReturned(rt: ClassKind, x: Value): Result<Value> {
    match rt
    case NumClass(Int, _) => ReturnInt(x)
    case NumClass(Short, _) => ReturnShort(x)
    case DynClass(c) => WrapAs(x, c)
    case _ => Ok(x)
  }

  /** A `@Key` value the reader accepts once the colon is ensured. */
  predicate ReadableKey(key: string) {
    key != [] && |KeyText(key)| >= 2
  }

  /** A view built on `h` with one key changed: `k` now reads `v`, every other key as before. */
  ghost predicate UpdatedView(h: Handler, o: Value, k: Value, v: Option<Value>) {
    && h.backing.Map?
    && o.Dyn? && o.ty == h.ty && o.backing.Map?
    && forall k' :: Store.Get(o.backing.entries, k') == if k' == k then v else Store.Get(h.backing.entries, k')
  }

  /* ---------------- the operations on their own ---------------- */

  lemma AssocUpdates(h: Handler, key: string, v: Value)
    requires h.backing.Map? && key != []
    ensures Assoc(h, key, v).Ok? && UpdatedView(h, Assoc(h, key, v).value, Kw(key), Some(Stored(v)))
    ensures Store.HasKey(h.backing.entries, Kw(key)) ==>
      |Assoc(h, key, v).value.backing.entries| == |h.backing.entries|
  {
    var es := h.backing.entries;
    var es' := Store.Assoc(es, Kw(key), Stored(v));
    assert KeywordFor(key) == Ok(Kw(key));
    assert Assoc(h, key, v) == Ok(Dyn(Map(es', h.backing.meta), h.ty));
    forall k' ensures Store.Get(es', k') == if k' == Kw(key) then Some(Stored(v)) else Store.Get(es, k') {
      Store.GetAssoc(es, Kw(key), Stored(v), k');
    }
    if Store.HasKey(es, Kw(key)) {
      assert |es'| == |es|;
    }
  }

  lemma WithoutUpdates(h: Handler, key: string)
    requires h.backing.Map? && Store.DistinctKeys(h.backing.entries) && key != []
    ensures Without(h, key).Ok? && UpdatedView(h, Without(h, key).value, Kw(key), None)
    ensures Store.DistinctKeys(Without(h, key).value.backing.entries)
    ensures !Store.HasKey(h.backing.entries, Kw(key)) ==> Without(h, key).value.backing == h.backing
  {
    var es := h.backing.entries;
    var es' := Store.Without(es, Kw(key));
    assert KeywordFor(key) == Ok(Kw(key));
    assert Without(h, key) == Ok(Dyn(Map(es', h.backing.meta), h.ty));
    forall k' {
      Store.GetWithout(es, Kw(key), k');
    }
    if !Store.HasKey(es, Kw(key)) {
      Store.WithoutAbsent(es, Kw(key));
    }
  }

  /* ---------------- builders, assoc and assocEx ---------------- */

  /**
   * A method returning the view's own type and given an argument is a
   * builder: it returns a new view of the same type whose `:name` holds the
   * argument (a view argument stored as its map), whatever the method's
   * name and whether or not it has a default body.
   */
  lemma BuilderAssocs(h: Handler, m: Signature, args: seq<Value>)
    requires m.returnType == DynClass(h.ty) && |args| > 0
    requires h.backing.Map? && m.name != []
    ensures var r := Invoke(h, m, args);
      r.Ok? && r.value.Return? && UpdatedView(h, r.value.v, Kw(m.name), Some(Stored(args[0])))
    ensures InvokeIntended(h, m, args) == Invoke(h, m, args)
  {
    assert Invoke(h, m, args) == Returning(Assoc(h, m.name, args[0]));
    AssocUpdates(h, m.name, args[0]);
  }

  /**
   * Setting a field with a builder and reading it back through an accessor
   * of the same name returns what was stored, narrowed or wrapped as the
   * accessor's return type asks; a plain accessor returns it unchanged.
   */
  lemma BuilderThenAccessor(h: Handler, name: string, v: Value, rt: ClassKind, anns: seq<Annotation>)
    requires h.backing.Map? && name != [] && !IsNamedOperation(name)
    ensures var built := Invoke(h, Signature(name, DynClass(h.ty), false, []), [v]);
      && built.Ok? && built.value.Return?
      && Invoke(Handler(built.value.v.backing, built.value.v.ty), Signature(name, rt, false, anns), [])
         == Returning(AsReturned(rt, Stored(v)))
      && (PlainReturn(rt) ==>
            Invoke(Handler(built.value.v.backing, built.value.v.ty), Signature(name, rt, false, anns), [])
            == Ok(Return(Stored(v))))
  {
    var es := h.backing.entries;
    var k := Kw(name);
    var es' := Store.Assoc(es, k, Stored(v));
    var h' := Handler(Map(es', h.backing.meta), h.ty);
    var m := Signature(name, rt, false, anns);
    assert KeywordFor(name) == Ok(k);
    assert Invoke(h, Signature(name, DynClass(h.ty), false, []), [v]) == Ok(Return(Dyn(h'.backing, h.ty)));
    Store.GetAssoc(es, k, Stored(v), k);
    assert Store.IndexOf(es', k).Some?;
    assert ResolveEntry(es', k, anns) == Ok(Some(Entry(k, Stored(v))));
    assert Invoke(h', m, []) == Returning(GetValueFor(h', m));
  }

  /**
   * `assoc` sets the key whether or not it is present, replacing the old
   * value without growing the map; `assocEx` fails on a present key and
   * otherwise does exactly what `assoc` does.
   */
  lemma AssocAgainstAssocEx(h: Handler, key: string, v: Value, rt: ClassKind, anns: seq<Annotation>)
    requires h.backing.Map? && key != [] && rt != DynClass(h.ty)
    ensures var r := Invoke(h, Signature("assoc", rt, false, anns), [Str(key), v]);
      && r.Ok? && r.value.Return? && UpdatedView(h, r.value.v, Kw(key), Some(Stored(v)))
      && (Store.HasKey(h.backing.entries, Kw(key)) ==> |r.value.v.backing.entries| == |h.backing.entries|)
    ensures var r := Invoke(h, Signature("assocEx", rt, false, anns), [Str(key), v]);
      if Store.HasKey(h.backing.entries, Kw(key)) then r == Err(KeyAlreadyPresent)
      else r == Invoke(h, Signature("assoc", rt, false, anns), [Str(key), v])
    ensures forall op :: op == "assoc" || op == "assocEx" ==>
      InvokeIntended(h, Signature(op, rt, false, anns), [Str(key), v]) == Invoke(h, Signature(op, rt, false, anns), [Str(key), v])
  {
    assert Invoke(h, Signature("assoc", rt, false, anns), [Str(key), v]) == Returning(Assoc(h, key, v));
    assert Invoke(h, Signature("assocEx", rt, false, anns), [Str(key), v]) == Returning(AssocEx(h, key, v));
    AssocUpdates(h, key, v);
  }

  /* ---------------- removal ---------------- */

  /**
   * "dissoc" on a well-formed map returns a view of the same type without
   * the key and with every other key as before; an absent key gives back
   * the very same map.
   */
  lemma DissocRemoves(h: Handler, key: string, rt: ClassKind, anns: seq<Annotation>)
    requires h.backing.Map? && Store.DistinctKeys(h.backing.entries)
    requires key != [] && rt != DynClass(h.ty)
    ensures var r := Invoke(h, Signature("dissoc", rt, false, anns), [Str(key)]);
      && r.Ok? && r.value.Return? && UpdatedView(h, r.value.v, Kw(key), None)
      && Store.DistinctKeys(r.value.v.backing.entries)
      && (!Store.HasKey(h.backing.entries, Kw(key)) ==> r.value.v.backing == h.backing)
  {
    assert Invoke(h, Signature("dissoc", rt, false, anns), [Str(key)]) == Returning(Without(h, key));
    WithoutUpdates(h, key);
  }

  /** The interface's `without(key)`, whose erased return type is the base interface. */
  function WithoutSignature(): Signature {
    Signature("without", DynClass(BaseInterface), false, [])
  }

  /**
   * As written, a call of the interface's `without` is not a removal: it
   * falls through to a field lookup of `:without` and, on a map without
   * that key, returns null whatever key it was given.
   */
  lemma WithoutReturnsNull(h: Handler, key: string)
    requires h.backing.Map? && h.ty != BaseInterface
    requires !Store.HasKey(h.backing.entries, Kw("without"))
    ensures Invoke(h, WithoutSignature(), [Str(key)]) == Ok(Return(Null))
  {
    assert !IsNamedOperation("without");
  }

  /** Routed as the interface declares it, `without` removes exactly the key. */
  lemma WithoutIntendedRemoves(h: Handler, key: string)
    requires h.backing.Map? && Store.DistinctKeys(h.backing.entries)
    requires h.ty != BaseInterface && key != []
    ensures var r := InvokeIntended(h, WithoutSignature(), [Str(key)]);
      && r.Ok? && r.value.Return? && UpdatedView(h, r.value.v, Kw(key), None)
      && Store.DistinctKeys(r.value.v.backing.entries)
  {
    assert InvokeIntended(h, WithoutSignature(), [Str(key)]) == Returning(Without(h, key));
    WithoutUpdates(h, key);
  }

  /* ---------------- equality and delegation ---------------- */

  /**
   * `equals` against another view compares the two backing maps key by
   * key with the library's equality (`Store.Equiv`, blind to entry order
   * and metadata at every depth), ignoring the other view's type; against
   * a plain map it compares with that map; against anything else it is
   * false. `toString` and `hashCode` are the map's own.
   */
  lemma EqualsComparesMaps(h: Handler, other: Value, rt: ClassKind, anns: seq<Annotation>)
    requires h.backing.Map? && Store.DistinctKeys(h.backing.entries)
    requires rt != DynClass(h.ty)
    requires Stored(other).Map? ==> Store.DistinctKeys(Stored(other).entries)
    ensures var r := Invoke(h, Signature("equals", rt, false, anns), [other]);
      && r.Ok? && r.value.Return? && r.value.v.Bool?
      && (r.value.v.b <==>
            Stored(other).Map? && forall k :: Store.OptEquiv(Store.Get(h.backing.entries, k), Store.Get(Stored(other).entries, k)))
    ensures Invoke(h, Signature("toString", rt, false, anns), []) == Ok(MapToString(h.backing))
    ensures Invoke(h, Signature("hashCode", rt, false, anns), []) == Ok(MapHashCode(h.backing))
    ensures InvokeIntended(h, Signature("equals", rt, false, anns), [other])
         == Invoke(h, Signature("equals", rt, false, anns), [other])
  {
    var eqs := Signature("equals", rt, false, anns);
    assert Invoke(h, eqs, [other]) == Ok(Return(Bool(MapEquals(h.backing, Stored(other)).value)));
    assert InvokeIntended(h, eqs, [other]) == Invoke(h, eqs, [other]);
    if Stored(other).Map? {
      Store.MapEqualsIffSameGets(h.backing.entries, Stored(other).entries);
    }
  }

  /**
   * Nested maps compare as the library compares them: `{:a {:x 1 :y 2}}`
   * equals `{:a {:y 2 :x 1}}` even when the inner map carries a type tag
   * in its metadata.
   */
  lemma EqualsIgnoresNestedOrder(ty: string, rt: ClassKind)
    requires rt != DynClass(ty)
    ensures var x, y := Entry(Kw("x"), Num(Long, 1)), Entry(Kw("y"), Num(Long, 2));
      var mine := Map([Entry(Kw("a"), Map([x, y], NoMeta))], NoMeta);
      var theirs := Map([Entry(Kw("a"), Map([y, x], TypeMeta(ty)))], NoMeta);
      Invoke(Handler(mine, ty), Signature("equals", rt, false, []), [Dyn(theirs, ty)]) == Ok(Return(Bool(true)))
  {
    var x, y := Entry(Kw("x"), Num(Long, 1)), Entry(Kw("y"), Num(Long, 2));
    var mine := Map([Entry(Kw("a"), Map([x, y], NoMeta))], NoMeta);
    var theirs := Map([Entry(Kw("a"), Map([y, x], TypeMeta(ty)))], NoMeta);
    Store.NestedOrderIgnored(TypeMeta(ty));
    var h, eqs := Handler(mine, ty), Signature("equals", rt, false, []);
    assert Invoke(h, eqs, [Dyn(theirs, ty)]) == Ok(Return(Bool(MapEquals(mine, theirs).value)));
  }

  /* ---------------- field lookup ---------------- */

  /**
   * An accessor reads `:name` when it is present; only when it is absent
   * does it read the entry named by its first `@Key`; when that is absent
   * too, or there is no `@Key`, it returns null.
   */
  lemma LookupOrder(h: Handler, m: Signature)
    requires h.backing.Map? && m.name != [] && !m.isDefault && !IsNamedOperation(m.name)
    ensures var es := h.backing.entries;
      Store.HasKey(es, Kw(m.name)) ==>
        Invoke(h, m, []) == Returning(AsReturned(m.returnType, Store.Get(es, Kw(m.name)).value))
    ensures var es := h.backing.entries;
      !Store.HasKey(es, Kw(m.name)) && FirstKeyIndex(m.annotations).None? ==> Invoke(h, m, []) == Ok(Return(Null))
    ensures var es := h.backing.entries;
      !Store.HasKey(es, Kw(m.name)) && FirstKeyIndex(m.annotations).Some? ==>
        var key := m.annotations[FirstKeyIndex(m.annotations).value].value;
        ReadableKey(key) && !m.returnType.DynClass? ==>
          var target := KeyText(key)[1..];
          Invoke(h, m, []) == match Store.Get(es, Kw(target))
                              case Some(x) => Returning(AsReturned(m.returnType, x))
                              case None => Ok(Return(Null))
    ensures m.name != "without" && !m.returnType.DynClass? ==> InvokeIntended(h, m, []) == Invoke(h, m, [])
  {
    assert Invoke(h, m, []) == Returning(GetValueFor(h, m));
    if m.name != "without" {
      assert InvokeIntended(h, m, []) == Returning(GetValueForIntended(h, m));
    }
  }

  /**
   * `@Key` values get a colon only when they lack one, so `@Key("x")` and
   * `@Key(":x")` name the same entry, and prefixing twice changes nothing.
   */
  lemma KeyPrefixIdempotent(es: seq<Entry>, key: string)
    requires key != [] && key[0] != ':'
    ensures KeyText(KeyText(key)) == KeyText(key)
    ensures KeyText(":" + key) == KeyText(key)
    ensures NonDefaultKey(es, [KeyAnnotation(":" + key)]) == NonDefaultKey(es, [KeyAnnotation(key)])
  {
    assert FirstKeyIndex([KeyAnnotation(key)]) == Some(0);
    assert FirstKeyIndex([KeyAnnotation(":" + key)]) == Some(0);
  }

  /**
   * `wrap(m, clazz)` performs no check: the view's `getMap` returns `m`
   * itself and its `getType` returns `clazz`, whatever `m` is.
   */
  lemma WrapThenGetters(m: Value, c: string, rt: ClassKind, anns: seq<Annotation>)
    ensures var o := DynamicObject.Wrap(m, c);
      && Invoke(Handler(o.backing, o.ty), Signature("getMap", rt, false, anns), []) == Ok(Return(m))
      && Invoke(Handler(o.backing, o.ty), Signature("getType", rt, false, anns), []) == Ok(Return(ClassRef(c)))
  {
  }

  /** Every field of a fresh instance reads as null. */
  lemma NewInstanceFieldsNull(c: string, m: Signature)
    requires m.name != []
    requires FirstKeyIndex(m.annotations).Some? ==> ReadableKey(m.annotations[FirstKeyIndex(m.annotations).value].value)
    ensures var o := DynamicObject.NewInstance(c);
      GetValueFor(Handler(o.backing, o.ty), m) == Ok(Null)
  {
  }

  /* ---------------- int and short accessors ---------------- */

  /**
   * An int accessor returns an Integer as it is and truncates a Long to 32
   * bits, which is the identity exactly on values that fit; a short
   * accessor does the same to 16 bits for an Integer or a Long.
   */
  lemma NarrowingAccessors(n: int)
    ensures ReturnInt(Num(Int, n)) == Ok(Num(Int, n))
    ensures ReturnInt(Num(Long, n)).Ok? && ReturnInt(Num(Long, n)).value.kind == Int
    ensures ReturnInt(Num(Long, n)).value.n == n <==> Numerics.Fits(Int, n)
    ensures ReturnInt(Num(Long, n)).value.n % 0x1_0000_0000 == n % 0x1_0000_0000
    ensures ReturnShort(Num(Short, n)) == Ok(Num(Short, n))
    ensures forall k :: k == Int || k == Long ==>
      && ReturnShort(Num(k, n)).Ok? && ReturnShort(Num(k, n)).value.kind == Short
      && (ReturnShort(Num(k, n)).value.n == n <==> Numerics.Fits(Short, n))
      && ReturnShort(Num(k, n)).value.n % 0x1_0000 == n % 0x1_0000
    ensures ReturnInt(Null) == Err(NullPointer) && ReturnShort(Null) == Err(NullPointer)
  {
    if Numerics.Fits(Int, n) {
      Numerics.NarrowFitting(Int, n);
    }
    if Numerics.Fits(Short, n) {
      Numerics.NarrowFitting(Short, n);
    }
  }

  /* ---------------- nested views found through @Key ---------------- */

  /** An accessor of a nested view type `c` whose field is stored under `@Key(key)`. */
  function KeyedViewAccessor(name: string, c: string, key: string): Signature {
    Signature(name, DynClass(c), false, [KeyAnnotation(key)])
  }

  /**
   * As written, a nested-view accessor that finds its map through `@Key`
   * wraps what is stored under `:name` instead, which is absent: it
   * returns a view over null, and every field lookup on that view fails.
   */
  lemma KeyedNestedViewWrapsNull(h: Handler, name: string, c: string, key: string, nested: Value, field: Signature)
    requires h.backing.Map? && name != [] && !IsNamedOperation(name)
    requires key != [] && key[0] != ':' && key != name
    requires !Store.HasKey(h.backing.entries, Kw(name))
    requires Store.Get(h.backing.entries, Kw(key)) == Some(nested) && nested.Map?
    requires field.name != []
    ensures Invoke(h, KeyedViewAccessor(name, c, key), []) == Ok(Return(Dyn(Null, c)))
    ensures GetValueFor(Handler(Null, c), field) == Err(NullPointer)
  {
    var es := h.backing.entries;
    assert FirstKeyIndex([KeyAnnotation(key)]) == Some(0);
    assert KeyText(key)[1..] == key;
    assert Store.IndexOf(es, Kw(key)).Some?;
  }

  /** Wrapping the entry that was found gives the nested view over the map stored under `@Key`. */
  lemma KeyedNestedViewIntended(h: Handler, name: string, c: string, key: string, nested: Value)
    requires h.backing.Map? && name != [] && !IsNamedOperation(name) && name != "without"
    requires key != [] && key[0] != ':' && key != name
    requires !Store.HasKey(h.backing.entries, Kw(name))
    requires Store.Get(h.backing.entries, Kw(key)) == Some(nested) && nested.Map?
    ensures InvokeIntended(h, KeyedViewAccessor(name, c, key), []) == Ok(Return(Dyn(nested, c)))
  {
    var es := h.backing.entries;
    assert FirstKeyIndex([KeyAnnotation(key)]) == Some(0);
    assert KeyText(key)[1..] == key;
    assert Store.IndexOf(es, Kw(key)).Some?;
    assert !IsNamedOperation(name);
  }
}
