/**
 * Building persistent collections through a transient: start from an empty
 * vector, set or map, `conj!` or `assoc!` one element at a time, freeze with
 * `persistent!`. A vector keeps every element in order, a set keeps the
 * first of elements the library deems equal (`Store.Equiv`), a map keeps
 * the last value given to a key. `AssocAllDiscarding` is the map fold as
 * the conversions write it, dropping what `assoc!` returns, which an array
 * map of eight entries makes lossy.
 */
module Transients {
  import opened Values
  import Store

  datatype CollKind = Vector | HashSet

  /** The set's membership test: `acc` holds an element the library deems equal to `x`. */
  predicate Holds(acc: seq<Value>, x: Value) {
    exists j :: 0 <= j < |acc| && Store.Equiv(x, acc[j])
  }

  /** `conj!`: a vector appends; a set adds an element only if it does not hold it yet. */
  function Conj(kind: CollKind, acc: seq<Value>, x: Value): seq<Value> {
    if kind == HashSet && Holds(acc, x) then acc else acc + [x]
  }

  /** `persistent!` of a transient vector or set. */
  function Persistent(kind: CollKind, items: seq<Value>): Value {
    match kind
    case Vector => List(items)
    case HashSet => Set(items)
  }

  /** `conj!` of every element of `xs`, in order, onto an empty transient. */
  function ConjAll(kind: CollKind, xs: seq<Value>): seq<Value> {
    if xs == [] then [] else Conj(kind, ConjAll(kind, xs[..|xs| - 1]), xs[|xs| - 1])
  }

  /** No element is equal, in the library's sense, to an earlier one. */
  predicate NoDuplicates(s: seq<Value>) {
    forall i, j :: 0 <= i < j < |s| ==> !Store.Equiv(s[j], s[i])
  }

  /** A vector built by `conj!` holds exactly the elements given, in order. */
  lemma {:induction false} ConjAllVector(xs: seq<Value>)
    ensures ConjAll(Vector, xs) == xs
  {
    if xs != [] {
      var init, last := xs[..|xs| - 1], xs[|xs| - 1];
      ConjAllVector(init);
      assert ConjAll(Vector, xs) == init + [last];
      assert init + [last] == xs;
    }
  }

  /**
   * A set built by `conj!` holds no two equal elements, holds only given
   * elements, and holds an element equal to each given one.
   */
  lemma {:induction false} ConjAllSet(xs: seq<Value>)
    ensures NoDuplicates(ConjAll(HashSet, xs))
    ensures forall y :: y in ConjAll(HashSet, xs) ==> y in xs
    ensures forall i :: 0 <= i < |xs| ==> Holds(ConjAll(HashSet, xs), xs[i])
    ensures |ConjAll(HashSet, xs)| <= |xs|
  {
    if xs != [] {
      var init, last := xs[..|xs| - 1], xs[|xs| - 1];
      var acc := ConjAll(HashSet, init);
      ConjAllSet(init);
      assert xs == init + [last];
      if !Holds(acc, last) {
        var r := acc + [last];
        assert ConjAll(HashSet, xs) == r;
        forall i | 0 <= i < |xs| ensures Holds(r, xs[i]) {
          if i < |init| {
            assert Holds(acc, init[i]);
            var j :| 0 <= j < |acc| && Store.Equiv(init[i], acc[j]);
            assert r[j] == acc[j];
          } else {
            Store.EquivRefl(last);
            assert r[|acc|] == last;
          }
        }
      }
    }
  }

  /** Without equal elements, a set built by `conj!` keeps the given order and size. */
  lemma {:induction false} ConjAllSetDistinct(xs: seq<Value>)
    requires NoDuplicates(xs)
    ensures ConjAll(HashSet, xs) == xs
  {
    if xs != [] {
      var init, last := xs[..|xs| - 1], xs[|xs| - 1];
      assert NoDuplicates(init);
      ConjAllSetDistinct(init);
      assert !Holds(init, last);
      assert init + [last] == xs;
    }
  }

  /** `assoc!` of every entry of `es`, in order, onto an empty transient map. */
  function AssocAll(es: seq<Entry>): seq<Entry> {
    if es == [] then []
    else
      var last := es[|es| - 1];
      Store.Assoc(AssocAll(es[..|es| - 1]), last.key, last.val)
  }

  /** Reference meaning of a sequence of `assoc!`s: the value of the last entry with key `k`. */
  function LastValue(es: seq<Entry>, k: Value): (r: Option<Value>)
    ensures r.Some? <==> exists i :: 0 <= i < |es| && es[i].key == k
  {
    if es == [] then None
    else if es[|es| - 1].key == k then Some(es[|es| - 1].val)
    else
      var r := LastValue(es[..|es| - 1], k);
      assert forall i :: 0 <= i < |es| - 1 ==> es[..|es| - 1][i] == es[i];
      r
  }

  /** The built map has no repeated key, and every key reads as its last `assoc!`. */
  lemma {:induction false} AssocAllLastWins(es: seq<Entry>)
    ensures Store.DistinctKeys(AssocAll(es))
    ensures forall k :: Store.Get(AssocAll(es), k) == LastValue(es, k)
  {
    if es != [] {
      var init := es[..|es| - 1];
      var last := es[|es| - 1];
      AssocAllLastWins(init);
      Store.AssocKeepsDistinct(AssocAll(init), last.key, last.val);
      forall k ensures Store.Get(AssocAll(es), k) == LastValue(es, k) {
        Store.GetAssoc(AssocAll(init), last.key, last.val, k);
      }
    }
  }

  /** When the given keys are already distinct, the built map is exactly the given entries. */
  lemma {:induction false} AssocAllDistinct(es: seq<Entry>)
    requires Store.DistinctKeys(es)
    ensures AssocAll(es) == es
  {
    if es != [] {
      var init := es[..|es| - 1];
      var last := es[|es| - 1];
      AssocAllDistinct(init);
      assert forall j :: 0 <= j < |init| ==> init[j].key != last.key;
      assert init + [last] == es;
    }
  }

  /** Entries a transient array map holds before `assoc!` of a new key moves it to a hash map. */
  const ArrayMapCapacity := 8

  /**
   * The map fold as the conversions write it, if the empty map they start
   * from is an array map: `assoc!` of a new key on a full transient array
   * map returns a new transient hash map, the conversion drops that return
   * value and goes on with the old transient, so every later new key is
   * lost. A key already present is replaced in place.
   */
  function AssocAllDiscarding(es: seq<Entry>): (r: seq<Entry>)
    ensures |r| <= ArrayMapCapacity
  {
    if es == [] then []
    else
      var acc := AssocAllDiscarding(es[..|es| - 1]);
      var last := es[|es| - 1];
      if Store.HasKey(acc, last.key) || |acc| < ArrayMapCapacity then
        Store.Assoc(acc, last.key, last.val)
      else acc
  }

  /** Both folds agree while the built map has at most eight keys. */
  lemma {:induction false} AssocAllDiscardingSmall(es: seq<Entry>)
    requires |AssocAll(es)| <= ArrayMapCapacity
    ensures AssocAllDiscarding(es) == AssocAll(es)
  {
    if es != [] {
      var init := es[..|es| - 1];
      var last := es[|es| - 1];
      AssocAllLastWins(init);
      Store.AssocKeepsDistinct(AssocAll(init), last.key, last.val);
      AssocAllDiscardingSmall(init);
    }
  }

  /** With nine distinct keys, the discarding fold loses the ninth. */
  lemma NinthKeyDropped(es: seq<Entry>)
    requires |es| == ArrayMapCapacity + 1 && Store.DistinctKeys(es)
    ensures AssocAll(es) == es
    ensures AssocAllDiscarding(es) == es[..ArrayMapCapacity]
    ensures !Store.HasKey(AssocAllDiscarding(es), es[ArrayMapCapacity].key)
  {
    var init := es[..ArrayMapCapacity];
    AssocAllDistinct(es);
    AssocAllDistinct(init);
    AssocAllDiscardingSmall(init);
    assert forall j :: 0 <= j < |init| ==> init[j].key != es[ArrayMapCapacity].key;
  }
}
