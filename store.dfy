/**
 * The persistent map that backs every typed view, as an association list in
 * iteration order: `Assoc` replaces a present key in place and appends a new
 * one, `Without` drops the entry, `MapEquals` is the persistent-map library's
 * map equality, insensitive to order and metadata at every depth.
 */
module Store {
  import opened Values

  /** The position of key `k` in `es`, if it has one. */
  function IndexOf(es: seq<Entry>, k: Value): (r: Option<nat>)
    ensures r.Some? ==> r.value < |es| && es[r.value].key == k
    ensures r.Some? ==> forall j :: 0 <= j < r.value ==> es[j].key != k
    ensures r.None? <==> forall j :: 0 <= j < |es| ==> es[j].key != k
  {
    if es == [] then None
    else if es[0].key == k then Some(0)
    else match IndexOf(es[1..], k)
      case None => None
      case Some(i) => Some(i + 1)
  }

  predicate HasKey(es: seq<Entry>, k: Value) {
    IndexOf(es, k).Some?
  }

  /** `entryAt(k).val()` / `valAt(k)`: the value stored under `k`. */
  function Get(es: seq<Entry>, k: Value): Option<Value> {
    match IndexOf(es, k)
    case None => None
    case Some(i) => Some(es[i].val)
  }

  /** `assoc(k, v)`: replace the entry for `k`, or add one at the end. */
  function Assoc(es: seq<Entry>, k: Value, v: Value): seq<Entry> {
    match IndexOf(es, k)
    case Some(i) => es[i := Entry(k, v)]
    case None => es + [Entry(k, v)]
  }

  /** `without(k)`: drop the entry for `k`, if there is one. */
  function Without(es: seq<Entry>, k: Value): seq<Entry> {
    match IndexOf(es, k)
    case Some(i) => es[..i] + es[i + 1..]
    case None => es
  }

  /** No key occurs twice: every map the library builds has this shape. */
  predicate DistinctKeys(es: seq<Entry>) {
    forall i, j :: 0 <= i < j < |es| ==> es[i].key != es[j].key
  }

  /**
   * The library's `equals` on stored values, at every depth: vectors compare
   * element by element, sets by size and by every element of the other set
   * being a member of this one, maps with `MapEquals`,
   * so neither iteration order nor a map's metadata ever matters. A typed
   * view compares its backing map with the other view's map, or with the
   * other value itself. Every other value compares as itself.
   */
  predicate Equiv(x: Value, y: Value)
    decreases x, 0
  {
    match x
    case List(xs) =>
      y.List? && |xs| == |y.items| && forall i :: 0 <= i < |xs| ==> Equiv(xs[i], y.items[i])
    case Set(xs) =>
      y.Set? && |xs| == |y.items|
      && forall j :: 0 <= j < |y.items| ==> exists i :: 0 <= i < |xs| && Equiv(xs[i], y.items[j])
    case Map(es, _) => y.Map? && MapEquals(es, y.entries)
    case Dyn(m, _) => Equiv(m, if y.Dyn? then y.backing else y)
    case _ => x == y
  }

  /**
   * The library's map equality: same size, and every entry of `a` is found
   * under its key in `b` with an `Equiv` value. Iteration order does not
   * matter.
   */
  predicate MapEquals(a: seq<Entry>, b: seq<Entry>)
    decreases a, 2
  {
    |a| == |b| && forall i :: 0 <= i < |a| ==> EntryIn(a[i], b)
  }

  /** `b` holds key `e.key` with a value `Equiv` to `e.val`. */
  predicate EntryIn(e: Entry, b: seq<Entry>)
    decreases e, 1
  {
    exists j :: 0 <= j < |b| && b[j].key == e.key && Equiv(e.val, b[j].val)
  }

  /** Two lookups agree: both miss, or both hit with `Equiv` values. */
  predicate OptEquiv(o: Option<Value>, p: Option<Value>) {
    if o.None? then p.None? else p.Some? && Equiv(o.value, p.value)
  }

  /** The keys of `es`, as a set. */
  ghost function KeySet(es: seq<Entry>): set<Value> {
    set i | 0 <= i < |es| :: es[i].key
  }

  lemma {:induction false} GetIsSomeEntry(es: seq<Entry>, k: Value)
    ensures Get(es, k).Some? <==> k in KeySet(es)
    ensures Get(es, k).Some? ==> exists i :: 0 <= i < |es| && es[i] == Entry(k, Get(es, k).value)
  {
    if Get(es, k).None? {
      assert forall j :: 0 <= j < |es| ==> es[j].key != k;
    }
  }

  /** The first position holding `k` is what `IndexOf` finds. */
  lemma IndexOfIs(es: seq<Entry>, k: Value, i: nat)
    requires i < |es| && es[i].key == k
    requires forall j :: 0 <= j < i ==> es[j].key != k
    ensures IndexOf(es, k) == Some(i)
  {
  }

  /** After `Assoc`, `k` reads back as `v` and every other key as before. */
  lemma GetAssoc(es: seq<Entry>, k: Value, v: Value, k': Value)
    ensures Get(Assoc(es, k, v), k') == if k' == k then Some(v) else Get(es, k')
  {
    var r := Assoc(es, k, v);
    var found := IndexOf(es, k);
    if found.Some? {
      var i := found.value;
      assert r == es[i := Entry(k, v)];
      if k' == k {
        IndexOfIs(r, k, i);
      } else if IndexOf(es, k').Some? {
        var j := IndexOf(es, k').value;
        IndexOfIs(r, k', j);
      } else {
        assert forall j :: 0 <= j < |r| ==> r[j].key != k';
      }
    } else {
      assert r == es + [Entry(k, v)];
      if k' == k {
        IndexOfIs(r, k, |es|);
      } else if IndexOf(es, k').Some? {
        var j := IndexOf(es, k').value;
        IndexOfIs(r, k', j);
      } else {
        assert forall j :: 0 <= j < |r| ==> r[j].key != k';
      }
    }
  }

  lemma AssocKeepsDistinct(es: seq<Entry>, k: Value, v: Value)
    requires DistinctKeys(es)
    ensures DistinctKeys(Assoc(es, k, v))
    ensures |Assoc(es, k, v)| == if HasKey(es, k) then |es| else |es| + 1
  {
  }

  /** `Without` of a present key shifts the entries after it down by one. */
  lemma WithoutShifts(es: seq<Entry>, k: Value, i: nat)
    requires IndexOf(es, k) == Some(i)
    ensures |Without(es, k)| == |es| - 1
    ensures forall j :: 0 <= j < |es| - 1 ==> Without(es, k)[j] == if j < i then es[j] else es[j + 1]
  {
  }

  lemma WithoutKeepsDistinct(es: seq<Entry>, k: Value)
    requires DistinctKeys(es)
    ensures DistinctKeys(Without(es, k))
  {
    if IndexOf(es, k).Some? {
      WithoutShifts(es, k, IndexOf(es, k).value);
    }
  }

  /** On a well-formed map, `Without` removes `k`... */
  lemma GetWithoutSame(es: seq<Entry>, k: Value)
    requires DistinctKeys(es)
    ensures Get(Without(es, k), k) == None
  {
    if IndexOf(es, k).Some? {
      var i := IndexOf(es, k).value;
      WithoutShifts(es, k, i);
      var r := Without(es, k);
      forall j | 0 <= j < |r| ensures r[j].key != k {
        if j >= i {
          assert r[j] == es[j + 1];
        }
      }
    }
  }

  /** ... and leaves every other key as it was. */
  lemma GetWithoutOther(es: seq<Entry>, k: Value, k': Value)
    requires k' != k
    ensures Get(Without(es, k), k') == Get(es, k')
  {
    if IndexOf(es, k).Some? {
      var i := IndexOf(es, k).value;
      if IndexOf(es, k').Some? {
        WithoutKeepsPresent(es, k, i, k', IndexOf(es, k').value);
      } else {
        WithoutKeepsAbsent(es, k, i, k');
      }
    }
  }

  lemma WithoutKeepsAbsent(es: seq<Entry>, k: Value, i: nat, k': Value)
    requires IndexOf(es, k) == Some(i) && IndexOf(es, k') == None
    ensures Get(Without(es, k), k') == None
  {
    WithoutShifts(es, k, i);
    var r := Without(es, k);
    forall x | 0 <= x < |r| ensures r[x].key != k' {
      if x >= i {
        assert r[x] == es[x + 1];
      }
    }
  }

  lemma WithoutKeepsPresent(es: seq<Entry>, k: Value, i: nat, k': Value, j: nat)
    requires k' != k && IndexOf(es, k) == Some(i) && IndexOf(es, k') == Some(j)
    ensures Get(Without(es, k), k') == Some(es[j].val)
  {
    WithoutShifts(es, k, i);
    var r := Without(es, k);
    var j' := if j < i then j else j - 1;
    assert r[j'] == es[j];
    forall x | 0 <= x < j' ensures r[x].key != k' {
      if x >= i {
        assert r[x] == es[x + 1];
      }
    }
    IndexOfIs(r, k', j');
    assert IndexOf(r, k') == Some(j');
  }

  lemma GetWithout(es: seq<Entry>, k: Value, k': Value)
    requires DistinctKeys(es)
    ensures DistinctKeys(Without(es, k))
    ensures Get(Without(es, k), k') == if k' == k then None else Get(es, k')
  {
    WithoutKeepsDistinct(es, k);
    if k' == k {
      GetWithoutSame(es, k);
    } else {
      GetWithoutOther(es, k, k');
    }
  }

  /** Removing an absent key gives back the very same map. */
  lemma WithoutAbsent(es: seq<Entry>, k: Value)
    requires !HasKey(es, k)
    ensures Without(es, k) == es
  {
  }

  lemma {:induction false} KeySetSize(es: seq<Entry>)
    requires DistinctKeys(es)
    ensures |KeySet(es)| == |es|
  {
    if es != [] {
      var last := |es| - 1;
      var init := es[..last];
      KeySetSize(init);
      assert KeySet(es) == KeySet(init) + {es[last].key};
      assert es[last].key !in KeySet(init);
    }
  }

  /** Two key sets of well-formed maps of one size, one inside the other, are equal. */
  lemma SameSizeKeySets(a: seq<Entry>, b: seq<Entry>)
    requires DistinctKeys(a) && DistinctKeys(b) && |a| == |b|
    requires KeySet(a) <= KeySet(b)
    ensures KeySet(a) == KeySet(b)
  {
    KeySetSize(a);
    KeySetSize(b);
    var extra := KeySet(b) - KeySet(a);
    assert KeySet(b) == KeySet(a) + extra;
    assert |extra| == 0;
  }

  /** Every value is `Equiv` to itself. */
  lemma {:induction false} EquivRefl(x: Value)
    ensures Equiv(x, x)
    decreases x, 0
  {
    match x
    case List(xs) =>
      forall i | 0 <= i < |xs| ensures Equiv(xs[i], xs[i]) {
        EquivRefl(xs[i]);
      }
    case Set(xs) =>
      forall j | 0 <= j < |x.items| ensures exists i :: 0 <= i < |xs| && Equiv(xs[i], x.items[j]) {
        EquivRefl(xs[j]);
        assert x.items[j] == xs[j];
      }
      assert forall j :: 0 <= j < |x.items| ==> exists i :: 0 <= i < |xs| && Equiv(xs[i], x.items[j]);
    case Map(es, _) => MapEqualsRefl(es);
    case Dyn(m, _) => EquivRefl(m);
    case _ =>
  }

  lemma {:induction false} MapEqualsRefl(es: seq<Entry>)
    ensures MapEquals(es, es)
    decreases es, 1
  {
    forall i | 0 <= i < |es| ensures EntryIn(es[i], es) {
      EntryInRefl(es[i], es, i);
    }
  }

  lemma {:induction false} EntryInRefl(e: Entry, es: seq<Entry>, i: nat)
    requires i < |es| && es[i] == e
    ensures EntryIn(e, es)
    decreases e, 0
  {
    EquivRefl(e.val);
  }

  /** In a map without repeated keys, the entry holding `k` is the one `Get` finds. */
  lemma GetAtEntry(es: seq<Entry>, j: nat)
    requires DistinctKeys(es) && j < |es|
    ensures Get(es, es[j].key) == Some(es[j].val)
  {
    IndexOfIs(es, es[j].key, j);
  }

  lemma MapEqualsSameGets(a: seq<Entry>, b: seq<Entry>)
    requires DistinctKeys(a) && DistinctKeys(b) && MapEquals(a, b)
    ensures forall k :: OptEquiv(Get(a, k), Get(b, k))
  {
    assert KeySet(a) <= KeySet(b) by {
      forall k | k in KeySet(a) ensures k in KeySet(b) {
        var i :| 0 <= i < |a| && a[i].key == k;
        assert EntryIn(a[i], b);
      }
    }
    SameSizeKeySets(a, b);
    forall k ensures OptEquiv(Get(a, k), Get(b, k)) {
      GetIsSomeEntry(a, k);
      GetIsSomeEntry(b, k);
      if Get(a, k).Some? {
        var i :| 0 <= i < |a| && a[i] == Entry(k, Get(a, k).value);
        assert EntryIn(a[i], b);
        var j :| 0 <= j < |b| && b[j].key == a[i].key && Equiv(a[i].val, b[j].val);
        GetAtEntry(b, j);
      }
    }
  }

  lemma SameGetsMapEquals(a: seq<Entry>, b: seq<Entry>)
    requires DistinctKeys(a) && DistinctKeys(b)
    requires forall k :: OptEquiv(Get(a, k), Get(b, k))
    ensures MapEquals(a, b)
  {
    KeySetSize(a);
    KeySetSize(b);
    assert KeySet(a) == KeySet(b) by {
      forall k ensures k in KeySet(a) <==> k in KeySet(b) {
        GetIsSomeEntry(a, k);
        GetIsSomeEntry(b, k);
      }
    }
    forall i | 0 <= i < |a| ensures EntryIn(a[i], b) {
      var k := a[i].key;
      GetAtEntry(a, i);
      assert OptEquiv(Get(a, k), Get(b, k));
      GetIsSomeEntry(b, k);
      var j :| 0 <= j < |b| && b[j] == Entry(k, Get(b, k).value);
    }
  }

  /**
   * For well-formed maps, `MapEquals` holds exactly when the two maps give
   * `Equiv` answers for every key.
   */
  lemma MapEqualsIffSameGets(a: seq<Entry>, b: seq<Entry>)
    requires DistinctKeys(a) && DistinctKeys(b)
    ensures MapEquals(a, b) <==> forall k :: OptEquiv(Get(a, k), Get(b, k))
  {
    if MapEquals(a, b) {
      MapEqualsSameGets(a, b);
    }
    if forall k :: OptEquiv(Get(a, k), Get(b, k)) {
      SameGetsMapEquals(a, b);
    }
  }

  /**
   * Equality looks through entry order and metadata below the top level:
   * `{:a {:x 1 :y 2}}` equals `{:a {:y 2 :x 1}}` whatever the inner map's
   * metadata.
   */
  lemma NestedOrderIgnored(meta: Meta)
    ensures var x, y := Entry(Kw("x"), Num(Long, 1)), Entry(Kw("y"), Num(Long, 2));
      MapEquals([Entry(Kw("a"), Map([x, y], NoMeta))], [Entry(Kw("a"), Map([y, x], meta))])
  {
    var x, y := Entry(Kw("x"), Num(Long, 1)), Entry(Kw("y"), Num(Long, 2));
    var inner, inner' := [x, y], [y, x];
    assert EntryIn(inner[0], inner') by { assert inner'[1] == x; }
    assert EntryIn(inner[1], inner') by { assert inner'[0] == y; }
    var mine, theirs := [Entry(Kw("a"), Map(inner, NoMeta))], [Entry(Kw("a"), Map(inner', meta))];
    assert EntryIn(mine[0], theirs) by {
      assert Equiv(Map(inner, NoMeta), theirs[0].val);
    }
  }
}
