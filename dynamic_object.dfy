/**
 * The public surface of DynamicObject: wrapping a map as a typed view,
 * serializing and deserializing views, and the process-wide translator
 * registry that plugs tagged literals into the reader and the printer.
 *
 * The registry is the class `TranslatorRegistry`; its methods update the
 * four tables in place. Each method is also stated as a transition on the
 * value `Tables`, so that lemmas can chain several of them.
 */
module DynamicObject {
  import opened Values
  import Numerics
  import Store
  import Transients

  /** `wrap(m, clazz)`: a view of type `clazz` over the map `m`, with no check at all. */
  function Wrap(m: Value, clazz: string): (r: Value)
    ensures r.Dyn? && r.backing == m && r.ty == clazz
  {
    Dyn(m, clazz)
  }

  /** The persistent map library's empty map. */
  const EmptyMap: Value := Map([], NoMeta)

  /** `newInstance(clazz)`: a view over the empty map. */
  function NewInstance(clazz: string): (r: Value)
    ensures r == Wrap(EmptyMap, clazz)
  {
    Wrap(EmptyMap, clazz)
  }

  /**
   * An EdnTranslator. `Record` is the RecordTranslator that `registerTag`
   * builds for a typed-view type; `Custom` is a user-supplied translator for
   * host class `cls`, whose read and write are modelled as exact inverses.
   */
  datatype Translator =
    | Custom(tag: string, cls: string)
    | Record(tag: string, ty: string)

  /** `RecordTranslator.read`: cast the read value to a map and wrap it. */
  function RecordRead(ty: string, obj: Value): (r: Result<Value>)
    ensures r.Ok? <==> obj.Map? || obj.Null?
    ensures r.Ok? ==> r.value == Wrap(obj, ty)
  {
    if obj.Map? || obj.Null? then Ok(Wrap(obj, ty)) else Err(ClassCast)
  }

  /** What a translator's read makes of the value the reader parsed after its tag. */
  function ReadWith(t: Translator, body: Value): Result<Value> {
    match t
    case Record(_, ty) => RecordRead(ty, body)
    case Custom(_, _) => Ok(body)
  }

  /** The registry's four tables. */
  datatype Tables = Tables(
    cache: map<string, Translator>,         // translatorCache: class -> translator
    readers: map<string, Translator>,       // reader tags: symbol -> translator
    printMethods: map<string, Translator>,  // print-method entries installed per class
    records: set<string>)                   // typed-view types registered by tag

  const EmptyTables := Tables(map[], map[], map[], {})

  datatype Outcome = Completed | Threw(error: Error)

  /**
   * `registerType(c, t)`: the cache entry is written first; installing the
   * reader with assocEx throws on a tag already present, and then neither
   * the reader nor the print method is installed.
   */
  function RegisterTypeStep(s: Tables, c: string, t: Translator): (r: (Tables, Outcome))
    ensures r.1.Threw? <==> t.tag in s.readers
    ensures r.0.cache == s.cache[c := t] && r.0.records == s.records
    ensures r.1.Threw? ==> r.0.readers == s.readers && r.0.printMethods == s.printMethods
  {
    var s1 := s.(cache := s.cache[c := t]);
    if t.tag in s.readers then (s1, Threw(KeyAlreadyPresent))
    else (s1.(readers := s.readers[t.tag := t], printMethods := s.printMethods[c := t]), Completed)
  }

  /**
   * `deregisterType(c)`: an unregistered class makes `getTag` dereference
   * null before anything changes; otherwise the reader for the cached
   * translator's tag, the print method and the cache entry are removed.
   */
  function DeregisterTypeStep(s: Tables, c: string): (r: (Tables, Outcome))
    ensures r.1.Threw? <==> c !in s.cache
    ensures r.1.Threw? ==> r.0 == s
    ensures r.1.Completed? ==> c !in r.0.cache && c !in r.0.printMethods && s.cache[c].tag !in r.0.readers
    ensures r.0.records == s.records
  {
    if c !in s.cache then (s, Threw(NullPointer))
    else
      var t := s.cache[c];
      (s.(readers := s.readers - {t.tag}, printMethods := s.printMethods - {c}, cache := s.cache - {c}),
       Completed)
  }

  /** `registerTag(c, tag)`: register a RecordTranslator, then remember `c` as a record type. */
  function RegisterTagStep(s: Tables, c: string, tag: string): (r: (Tables, Outcome))
    ensures r.1.Completed? <==> tag !in s.readers
    ensures r.1.Completed? ==> c in r.0.records && tag in r.0.readers && r.0.readers[tag] == Record(tag, c)
                               && c in r.0.printMethods && r.0.printMethods[c] == Record(tag, c)
    ensures r.1.Threw? ==> r.0.records == s.records
  {
    var (s1, outcome) := RegisterTypeStep(s, c, Record(tag, c));
    if outcome.Threw? then (s1, outcome) else (s1.(records := s1.records + {c}), Completed)
  }

  /** `deregisterTag(c)`: only `deregisterType(c)`; `records` keeps `c`. */
  function DeregisterTagStep(s: Tables, c: string): (r: (Tables, Outcome))
    ensures r.1.Threw? <==> c !in s.cache
    ensures r.1.Completed? ==> c !in r.0.printMethods
    ensures r.0.records == s.records
  {
    DeregisterTypeStep(s, c)
  }

  /** `deregisterTag` as its documentation intends it: `c` stops being a record type too. */
  function DeregisterTagIntendedStep(s: Tables, c: string): (Tables, Outcome) {
    var (s1, outcome) := DeregisterTypeStep(s, c);
    if outcome.Threw? then (s1, outcome) else (s1.(records := s1.records - {c}), Completed)
  }

  /** `getReadersAsOptions()`: the reader options, one entry `:readers` holding the tag table. */
  function ReadersAsOptions(s: Tables): (opts: map<Value, map<string, Translator>>)
    ensures opts.Keys == {Kw("readers")} && opts[Kw("readers")] == s.readers
  {
    map[Kw("readers") := s.readers]
  }

  /** `serialize(o)`: what is handed to pr-str, the view itself for a record type and its map otherwise. */
  function Serialize(s: Tables, o: Value): (printed: Value)
    requires o.Dyn?
    ensures printed == o <==> o.ty in s.records
    ensures printed != o ==> printed == o.backing
  {
    if o.ty in s.records then o else o.backing
  }

  /**
   * `deserialize(edn, clazz)`, given what the reader returned for `edn`: a
   * view is returned as it is; anything else is cast to a map and wrapped.
   */
  function Deserialize(parsed: Value, clazz: string): (r: Result<Value>)
    ensures parsed.Dyn? ==> r == Ok(parsed)
    ensures !parsed.Dyn? ==> (r.Ok? <==> parsed.Map? || parsed.Null?)
    ensures !parsed.Dyn? && r.Ok? ==> r.value == Wrap(parsed, clazz)
  {
    if parsed.Dyn? then Ok(parsed)
    else if parsed.Map? || parsed.Null? then Ok(Wrap(parsed, clazz))
    else Err(ClassCast)
  }

  /**
   * Text, as the printer `pr-str` writes it and the edn reader parses it:
   * one form per printed value.
   */
  datatype Form =
    | Atom(v: Value)                  // nil, true or false, a string, a keyword or a symbol
    | IntLit(n: int)                  // an integer literal without suffix
    | BigIntLit(n: int)               // an integer literal with the suffix N
    | CustomText(v: Value)            // the text a custom translator writes for `v`
    | Unreadable(obj: Value)          // a form the reader rejects, such as #object[...]
    | Tagged(tag: string, body: Form)
    | SeqForm(items: seq<Form>)       // (a b) for a java.util.List, [a b] for a vector
    | SetForm(items: seq<Form>)
    | MapForm(entries: seq<FormEntry>)

  datatype FormEntry = FormEntry(key: Form, val: Form)

  function ClassOf(x: Value): Option<string> {
    match x
    case Dyn(_, ty) => Some(ty)
    case Obj(cls, _) => Some(cls)
    case _ => None
  }

  /**
   * `pr-str` of `x` under the print methods of `s`. A class with an
   * installed print method prints as the tag followed by its translator's
   * text, and a RecordTranslator's text is the printed map of the view.
   * Any other view or host object prints in the unreadable `#object[...]`
   * form, and so does a host object whose print method is a
   * RecordTranslator, whose write cannot cast it to a view. A BigInteger
   * prints with the suffix BIGINT, which the reader rejects. A class prints
   * as its name. Metadata is not printed.
   */
  function Render(s: Tables, x: Value): Form
    decreases x
  {
    match x
    case Num(k, n) =>
      if k == BigInt then BigIntLit(n) else if k == BigInteger then Unreadable(x) else IntLit(n)
    case ClassRef(name) => Atom(Sym(name))
    case Obj(cls, _) =>
      if cls in s.printMethods && s.printMethods[cls].Custom? then Tagged(s.printMethods[cls].tag, CustomText(x))
      else Unreadable(x)
    case Dyn(m, ty) =>
      if ty !in s.printMethods then Unreadable(x)
      else (match s.printMethods[ty]
        case Record(tag, _) => Tagged(tag, Render(s, m))
        case Custom(tag, _) => Tagged(tag, CustomText(x)))
    case List(xs) => SeqForm(seq(|xs|, i requires 0 <= i < |xs| => Render(s, xs[i])))
    case Set(xs) => SetForm(seq(|xs|, i requires 0 <= i < |xs| => Render(s, xs[i])))
    case Map(es, _) =>
      MapForm(seq(|es|, i requires 0 <= i < |es| => FormEntry(Render(s, es[i].key), Render(s, es[i].val))))
    case _ => Atom(x)
  }

  /** The number an integer literal without suffix reads as: a Long when it fits one, a BigInt otherwise. */
  function ReadInteger(n: int): Value {
    if Numerics.Fits(Long, n) then Num(Long, n) else Num(BigInt, n)
  }

  /**
   * The edn reader with the tag table `readers`. A tagged literal's body is
   * read first and then handed to the translator registered for the tag;
   * an unknown tag and an unreadable form are errors, and so are a set
   * literal with two equal elements and a map literal with a repeated key.
   * A map literal reads without metadata.
   */
  function Read(readers: map<string, Translator>, f: Form): Result<Value>
    decreases f, 0
  {
    match f
    case Atom(v) => Ok(v)
    case IntLit(n) => Ok(ReadInteger(n))
    case BigIntLit(n) => Ok(Num(BigInt, n))
    case CustomText(v) => Ok(v)
    case Unreadable(_) => Err(ReaderError)
    case Tagged(tag, body) =>
      var v :- Read(readers, body);
      if tag in readers then ReadWith(readers[tag], v) else Err(ReaderError)
    case SeqForm(fs) =>
      var vs :- ReadAll(readers, fs);
      Ok(List(vs))
    case SetForm(fs) =>
      var vs :- ReadAll(readers, fs);
      if Transients.NoDuplicates(vs) then Ok(Set(vs)) else Err(ReaderError)
    case MapForm(fes) =>
      var es :- ReadEntries(readers, fes);
      if Store.DistinctKeys(es) then Ok(Map(es, NoMeta)) else Err(ReaderError)
  }

  /** The forms of a collection literal, read left to right: the first failure is the result. */
  function ReadAll(readers: map<string, Translator>, fs: seq<Form>): (r: Result<seq<Value>>)
    decreases fs, 1
    ensures r.Ok? <==> forall i :: 0 <= i < |fs| ==> Read(readers, fs[i]).Ok?
    ensures r.Ok? ==> |r.value| == |fs| && forall i :: 0 <= i < |fs| ==> r.value[i] == Read(readers, fs[i]).value
  {
    if fs == [] then Ok([])
    else
      var v :- Read(readers, fs[0]);
      var vs :- ReadAll(readers, fs[1..]);
      Ok([v] + vs)
  }

  function ReadEntry(readers: map<string, Translator>, fe: FormEntry): (r: Result<Entry>)
    decreases fe, 1
    ensures r.Ok? <==> Read(readers, fe.key).Ok? && Read(readers, fe.val).Ok?
    ensures r.Ok? ==> r.value == Entry(Read(readers, fe.key).value, Read(readers, fe.val).value)
  {
    var k :- Read(readers, fe.key);
    var v :- Read(readers, fe.val);
    Ok(Entry(k, v))
  }

  /** The entries of a map literal, read left to right. */
  function ReadEntries(readers: map<string, Translator>, fes: seq<FormEntry>): (r: Result<seq<Entry>>)
    decreases fes, 2
    ensures r.Ok? <==> forall i :: 0 <= i < |fes| ==> ReadEntry(readers, fes[i]).Ok?
    ensures r.Ok? ==> |r.value| == |fes| && forall i :: 0 <= i < |fes| ==> r.value[i] == ReadEntry(readers, fes[i]).value
  {
    if fes == [] then Ok([])
    else
      var e :- ReadEntry(readers, fes[0]);
      var es :- ReadEntries(readers, fes[1..]);
      Ok([e] + es)
  }

  /** What the translator now registered for `tag` makes of `body`. */
  function Translated(s: Tables, tag: string, body: Value): Result<Value> {
    if tag in s.readers then ReadWith(s.readers[tag], body) else Err(ReaderError)
  }

  /**
   * What printing `x` and reading the text back yields, stated on values:
   * an integer of any fixed width comes back as a Long, a class as a
   * symbol, a map without its metadata, and a value with a print method as
   * the translator its tag reads with makes it. Meaningful where
   * `Printable(s, x)` holds.
   */
  ghost function ReadBack(s: Tables, x: Value): (r: Value)
    decreases x
    ensures x.Map? ==> r.Map? && r.meta == NoMeta && |r.entries| == |x.entries|
    ensures x.List? ==> r.List? && |r.items| == |x.items|
    ensures x.Set? ==> r.Set? && |r.items| == |x.items|
    ensures x.Null? ==> r.Null?
  {
    match x
    case Num(k, n) => if k == BigInt || k == BigInteger || !Numerics.Fits(Long, n) then Num(BigInt, n) else Num(Long, n)
    case ClassRef(name) => Sym(name)
    case Obj(cls, _) =>
      if cls in s.printMethods && Translated(s, s.printMethods[cls].tag, x).Ok?
      then Translated(s, s.printMethods[cls].tag, x).value else x
    case Dyn(m, ty) =>
      if ty !in s.printMethods then x
      else
        var t := s.printMethods[ty];
        var body := if t.Record? then ReadBack(s, m) else x;
        if Translated(s, t.tag, body).Ok? then Translated(s, t.tag, body).value else x
    case List(xs) => List(seq(|xs|, i requires 0 <= i < |xs| => ReadBack(s, xs[i])))
    case Set(xs) => Set(seq(|xs|, i requires 0 <= i < |xs| => ReadBack(s, xs[i])))
    case Map(es, _) =>
      Map(seq(|es|, i requires 0 <= i < |es| => Entry(ReadBack(s, es[i].key), ReadBack(s, es[i].val))), NoMeta)
    case _ => x
  }

  /**
   * The text printed for `x` reads back: no BigInteger, no view or host
   * object without a print method whose tag's translator accepts what was
   * written, and no set or map whose elements or keys become equal once
   * read back.
   */
  ghost predicate Printable(s: Tables, x: Value)
    decreases x
  {
    match x
    case Num(k, _) => k != BigInteger
    case Obj(cls, _) =>
      cls in s.printMethods && s.printMethods[cls].Custom? && Translated(s, s.printMethods[cls].tag, x).Ok?
    case Dyn(m, ty) =>
      ty in s.printMethods &&
      (match s.printMethods[ty]
       case Record(tag, _) => Printable(s, m) && Translated(s, tag, ReadBack(s, m)).Ok?
       case Custom(tag, _) => Translated(s, tag, x).Ok?)
    case List(xs) => forall i :: 0 <= i < |xs| ==> Printable(s, xs[i])
    case Set(xs) => (forall i :: 0 <= i < |xs| ==> Printable(s, xs[i])) && Transients.NoDuplicates(ReadBack(s, x).items)
    case Map(es, _) =>
      (forall i :: 0 <= i < |es| ==> Printable(s, es[i].key) && Printable(s, es[i].val))
      && Store.DistinctKeys(ReadBack(s, x).entries)
    case _ => true
  }

  /**
   * `x` reads back as itself: its integers are Longs or BigInts, it holds
   * no class object and no metadata, no two set elements or map keys are
   * equal, and each view or host object in it has a print method whose tag
   * reads back with a translator that gives back what was written.
   */
  ghost predicate Exact(s: Tables, x: Value)
    decreases x
  {
    match x
    case Num(k, n) => k == BigInt || (k == Long && Numerics.Fits(Long, n))
    case ClassRef(_) => false
    case Obj(cls, _) =>
      cls in s.printMethods && s.printMethods[cls].Custom?
      && s.printMethods[cls].tag in s.readers && s.readers[s.printMethods[cls].tag].Custom?
    case Dyn(m, ty) =>
      ty in s.printMethods &&
      (match s.printMethods[ty]
       case Record(tag, _) => tag in s.readers && s.readers[tag] == Record(tag, ty) && (m.Map? || m.Null?) && Exact(s, m)
       case Custom(tag, _) => tag in s.readers && s.readers[tag].Custom?)
    case List(xs) => forall i :: 0 <= i < |xs| ==> Exact(s, xs[i])
    case Set(xs) => (forall i :: 0 <= i < |xs| ==> Exact(s, xs[i])) && Transients.NoDuplicates(xs)
    case Map(es, meta) =>
      meta == NoMeta && Store.DistinctKeys(es)
      && forall i :: 0 <= i < |es| ==> Exact(s, es[i].key) && Exact(s, es[i].val)
    case _ => true
  }

  /** The reader accepts the printed text of `x` exactly when `x` is printable, and then gives `ReadBack(s, x)`. */
  lemma {:induction false} ReadRendered(s: Tables, x: Value)
    decreases x, 2
    ensures Read(s.readers, Render(s, x)).Ok? <==> Printable(s, x)
    ensures Printable(s, x) ==> Read(s.readers, Render(s, x)) == Ok(ReadBack(s, x))
  {
    match x
    case Dyn(_, _) =>
      ReadRenderedView(s, x);
    case List(_) =>
      ReadRenderedItems(s, x);
    case Set(_) =>
      ReadRenderedItems(s, x);
    case Map(_, _) =>
      ReadRenderedEntries(s, x);
    case Obj(_, _) =>
      ReadRenderedObject(s, x);
    case _ =>
      ReadRenderedAtom(s, x);
  }

  /** A host object prints only through a custom translator's print method. */
  lemma ReadRenderedObject(s: Tables, x: Value)
    requires x.Obj?
    ensures Read(s.readers, Render(s, x)).Ok? <==> Printable(s, x)
    ensures Printable(s, x) ==> Read(s.readers, Render(s, x)) == Ok(ReadBack(s, x))
  {
  }

  /** Numbers, classes and the other atoms print as literals. */
  lemma ReadRenderedAtom(s: Tables, x: Value)
    requires !(x.Obj? || x.Dyn? || x.List? || x.Set? || x.Map?)
    ensures Read(s.readers, Render(s, x)).Ok? <==> Printable(s, x)
    ensures Printable(s, x) ==> Read(s.readers, Render(s, x)) == Ok(ReadBack(s, x))
  {
  }

  /** A view prints through its print method, and a RecordTranslator's text is the printed map. */
  lemma {:induction false} ReadRenderedView(s: Tables, x: Value)
    requires x.Dyn?
    decreases x, 0
    ensures Read(s.readers, Render(s, x)).Ok? <==> Printable(s, x)
    ensures Printable(s, x) ==> Read(s.readers, Render(s, x)) == Ok(ReadBack(s, x))
  {
    if x.ty in s.printMethods && s.printMethods[x.ty].Record? {
      var tag := s.printMethods[x.ty].tag;
      ReadRendered(s, x.backing);
      assert Render(s, x) == Tagged(tag, Render(s, x.backing));
    }
  }

  /** The elements of a printed vector or set read back one by one. */
  lemma {:induction false} ReadRenderedItems(s: Tables, x: Value)
    requires x.List? || x.Set?
    decreases x, 0
    ensures Read(s.readers, Render(s, x)).Ok? <==> Printable(s, x)
    ensures Printable(s, x) ==> Read(s.readers, Render(s, x)) == Ok(ReadBack(s, x))
  {
    var xs, fs := x.items, Render(s, x).items;
    var want := ReadBack(s, x).items;
    forall i | 0 <= i < |xs|
      ensures Read(s.readers, fs[i]).Ok? <==> Printable(s, xs[i])
      ensures Read(s.readers, fs[i]).Ok? ==> Read(s.readers, fs[i]).value == want[i]
    {
      assert fs[i] == Render(s, xs[i]) && want[i] == ReadBack(s, xs[i]);
      ReadRendered(s, xs[i]);
    }
    ReadAllAre(s.readers, fs, want);
  }

  /** Forms that read one by one as `want` read together as `want`. */
  lemma ReadAllAre(readers: map<string, Translator>, fs: seq<Form>, want: seq<Value>)
    requires |fs| == |want|
    requires forall i :: 0 <= i < |fs| && Read(readers, fs[i]).Ok? ==> Read(readers, fs[i]).value == want[i]
    ensures ReadAll(readers, fs).Ok? ==> ReadAll(readers, fs).value == want
  {
  }

  /** The entries of a printed map read back one by one. */
  lemma {:induction false} ReadRenderedEntries(s: Tables, x: Value)
    requires x.Map?
    decreases x, 1
    ensures Read(s.readers, Render(s, x)).Ok? <==> Printable(s, x)
    ensures Printable(s, x) ==> Read(s.readers, Render(s, x)) == Ok(ReadBack(s, x))
  {
    var fes := Render(s, x).entries;
    var want := ReadBack(s, x).entries;
    forall i | 0 <= i < |fes|
      ensures ReadEntry(s.readers, fes[i]).Ok? <==> Printable(s, x.entries[i].key) && Printable(s, x.entries[i].val)
      ensures ReadEntry(s.readers, fes[i]).Ok? ==> ReadEntry(s.readers, fes[i]).value == want[i]
    {
      ReadRenderedEntry(s, x, i);
    }
    ReadEntriesAre(s.readers, fes, want);
  }

  /** Entries that read one by one as `want` read together as `want`. */
  lemma ReadEntriesAre(readers: map<string, Translator>, fes: seq<FormEntry>, want: seq<Entry>)
    requires |fes| == |want|
    requires forall i :: 0 <= i < |fes| && ReadEntry(readers, fes[i]).Ok? ==> ReadEntry(readers, fes[i]).value == want[i]
    ensures ReadEntries(readers, fes).Ok? ==> ReadEntries(readers, fes).value == want
  {
  }

  /** Entry `i` of a printed map reads back as its key and value read back. */
  lemma {:induction false} ReadRenderedEntry(s: Tables, x: Value, i: int)
    requires x.Map? && 0 <= i < |x.entries|
    decreases x, 0
    ensures var fe := Render(s, x).entries[i];
      && (ReadEntry(s.readers, fe).Ok? <==> Printable(s, x.entries[i].key) && Printable(s, x.entries[i].val))
      && (ReadEntry(s.readers, fe).Ok? ==> ReadEntry(s.readers, fe).value == ReadBack(s, x).entries[i])
  {
    var e := x.entries[i];
    assert Render(s, x).entries[i] == FormEntry(Render(s, e.key), Render(s, e.val));
    assert ReadBack(s, x).entries[i] == Entry(ReadBack(s, e.key), ReadBack(s, e.val));
    ReadRendered(s, e.key);
    ReadRendered(s, e.val);
  }

  /** A value that is `Exact` is printable and reads back as itself. */
  lemma {:induction false} ExactReadsBack(s: Tables, x: Value)
    decreases x
    requires Exact(s, x)
    ensures Printable(s, x) && ReadBack(s, x) == x
  {
    match x
    case Dyn(m, ty) =>
      if s.printMethods[ty].Record? {
        ExactReadsBack(s, m);
      }
    case List(xs) =>
      forall i | 0 <= i < |xs| ensures Printable(s, xs[i]) && ReadBack(s, xs[i]) == xs[i] {
        ExactReadsBack(s, xs[i]);
      }
      assert ReadBack(s, x).items == xs;
    case Set(xs) =>
      forall i | 0 <= i < |xs| ensures Printable(s, xs[i]) && ReadBack(s, xs[i]) == xs[i] {
        ExactReadsBack(s, xs[i]);
      }
      assert ReadBack(s, x).items == xs;
    case Map(es, _) =>
      forall i | 0 <= i < |es|
        ensures Printable(s, es[i].key) && ReadBack(s, es[i].key) == es[i].key
        ensures Printable(s, es[i].val) && ReadBack(s, es[i].val) == es[i].val
      {
        ExactReadsBack(s, es[i].key);
        ExactReadsBack(s, es[i].val);
      }
      assert ReadBack(s, x).entries == es;
    case _ =>
  }

  /**
   * A RecordTranslator writes the printed map of a view and its read wraps
   * what the reader makes of that text: the view comes back over its map
   * read back, and as itself when the map is `Exact`.
   */
  lemma RecordTranslatorRoundTrip(s: Tables, tag: string, o: Value)
    requires o.Dyn? && (o.backing.Map? || o.backing.Null?)
    ensures Read(s.readers, Render(s, o.backing)).Ok? <==> Printable(s, o.backing)
    ensures Printable(s, o.backing) ==>
      && Read(s.readers, Render(s, o.backing)) == Ok(ReadBack(s, o.backing))
      && ReadWith(Record(tag, o.ty), ReadBack(s, o.backing)) == Ok(Dyn(ReadBack(s, o.backing), o.ty))
    ensures Exact(s, o.backing) ==>
      && Read(s.readers, Render(s, o.backing)) == Ok(o.backing)
      && ReadWith(Record(tag, o.ty), o.backing) == Ok(o)
  {
    ReadRendered(s, o.backing);
    if Exact(s, o.backing) {
      ExactReadsBack(s, o.backing);
    }
  }

  /** The tag table found under `:readers` in the reader's options. */
  function ReadersOf(opts: map<Value, map<string, Translator>>): map<string, Translator> {
    if Kw("readers") in opts then opts[Kw("readers")] else map[]
  }

  /** Serialize `o`, then deserialize the text as `clazz`, through the registry `s`. */
  function SerializeThenDeserialize(s: Tables, o: Value, clazz: string): Result<Value>
    requires o.Dyn?
  {
    var parsed :- Read(ReadersOf(ReadersAsOptions(s)), Render(s, Serialize(s, o)));
    Deserialize(parsed, clazz)
  }

  /** Type `c` is tagged: a RecordTranslator of its own is both its print method and its tag's reader. */
  ghost predicate TagInstalled(s: Tables, c: string) {
    && c in s.printMethods
    && s.printMethods[c].Record?
    && s.printMethods[c].ty == c
    && s.printMethods[c].tag in s.readers
    && s.readers[s.printMethods[c].tag] == s.printMethods[c]
  }

  /**
   * Serialize then deserialize, for a view over a map whose type is either
   * not a record type or a record type whose tag is installed. The text
   * reads back exactly when the map is printable, and then gives a view
   * over the map read back: of the record type itself for a record type,
   * whatever type is asked for, and otherwise of the type asked for. A view
   * over an `Exact` map comes back equal to itself.
   */
  lemma SerializeRoundTrip(s: Tables, o: Value, clazz: string)
    requires o.Dyn? && o.backing.Map?
    requires o.ty in s.records ==> TagInstalled(s, o.ty)
    ensures SerializeThenDeserialize(s, o, clazz).Ok? <==> Printable(s, o.backing)
    ensures SerializeThenDeserialize(s, o, clazz).Ok? ==>
      SerializeThenDeserialize(s, o, clazz).value == Dyn(ReadBack(s, o.backing), if o.ty in s.records then o.ty else clazz)
    ensures Exact(s, o.backing) ==> SerializeThenDeserialize(s, o, o.ty) == Ok(o)
    ensures Exact(s, o.backing) && o.ty in s.records ==> SerializeThenDeserialize(s, o, clazz) == Ok(o)
  {
    ReadRendered(s, o.backing);
    if Exact(s, o.backing) {
      ExactReadsBack(s, o.backing);
    }
    if o.ty in s.records {
      var t := s.printMethods[o.ty];
      assert Render(s, o) == Tagged(t.tag, Render(s, o.backing));
    }
  }

  /**
   * A field stored as a Byte, Short or Integer, as a builder stores an
   * `int` or `short` argument, prints as a plain integer and reads back as
   * a Long: the view that comes back is not equal to the one serialized.
   */
  lemma NarrowFieldReadsBackAsLong(s: Tables, ty: string, key: string, k: IntKind, n: int)
    requires k == Byte || k == Short || k == Int
    requires Numerics.Fits(k, n) && ty !in s.records
    ensures var o := Dyn(Map([Entry(Kw(key), Num(k, n))], NoMeta), ty);
      var back := Dyn(Map([Entry(Kw(key), Num(Long, n))], NoMeta), ty);
      && SerializeThenDeserialize(s, o, ty) == Ok(back)
      && !Store.Equiv(back, o)
  {
    var o := Dyn(Map([Entry(Kw(key), Num(k, n))], NoMeta), ty);
    var back := Dyn(Map([Entry(Kw(key), Num(Long, n))], NoMeta), ty);
    var f := MapForm([FormEntry(Atom(Kw(key)), IntLit(n))]);
    assert Render(s, Serialize(s, o)) == f;
    assert ReadEntry(s.readers, f.entries[0]) == Ok(back.backing.entries[0]);
    ReadEntriesAre(s.readers, f.entries, back.backing.entries);
    assert ReadEntries(s.readers, f.entries) == Ok(back.backing.entries);
    assert Read(s.readers, f) == Ok(back.backing);
    assert !Store.EntryIn(back.backing.entries[0], o.backing.entries);
    assert !Store.MapEquals(back.backing.entries, o.backing.entries);
    assert Store.Equiv(back, o) == Store.Equiv(back.backing, o.backing);
  }

  /** Read text as `clazz` with `deserialize`, then print the view `serialize` prints. */
  function DeserializeThenSerialize(s: Tables, f: Form, clazz: string): Result<Form> {
    var parsed :- Read(ReadersOf(ReadersAsOptions(s)), f);
    var o :- Deserialize(parsed, clazz);
    assert o.Dyn?;
    Ok(Render(s, Serialize(s, o)))
  }

  /**
   * Text to view to text gives the same text back, for the text printed
   * for an `Exact` value: a map read as a type that is not a record type,
   * or a view of a record type, whatever type is asked for.
   */
  lemma DeserializeThenSerializeRestores(s: Tables, x: Value, clazz: string)
    requires Exact(s, x)
    requires ((x.Map? || x.Null?) && clazz !in s.records) || (x.Dyn? && x.ty in s.records)
    ensures DeserializeThenSerialize(s, Render(s, x), clazz) == Ok(Render(s, x))
  {
    ReadRendered(s, x);
    ExactReadsBack(s, x);
  }

  /** The translator the reader test registers: tag `MyDumbClass` for the host class `DumbClass`. */
  const DumbTranslator := Custom("MyDumbClass", "DumbClass")

  /**
   * The reader test's round trip: with DumbClass's translator registered,
   * the text `{:dumb [#MyDumbClass{...}]}` read as a holder prints back as
   * the same text, and the holder's `:dumb` list holds the object the
   * translator read.
   */
  lemma TaggedReaderRoundTrip(d: Value)
    requires d.Obj? && d.cls == "DumbClass"
    ensures var s := RegisterTypeStep(EmptyTables, "DumbClass", DumbTranslator).0;
      var edn := MapForm([FormEntry(Atom(Kw("dumb")), SeqForm([Tagged("MyDumbClass", CustomText(d))]))]);
      && Read(s.readers, edn) == Ok(Map([Entry(Kw("dumb"), List([d]))], NoMeta))
      && DeserializeThenSerialize(s, edn, "DumbClassHolder") == Ok(edn)
  {
    var s := RegisterTypeStep(EmptyTables, "DumbClass", DumbTranslator).0;
    var x := Map([Entry(Kw("dumb"), List([d]))], NoMeta);
    var edn := MapForm([FormEntry(Atom(Kw("dumb")), SeqForm([Tagged("MyDumbClass", CustomText(d))]))]);
    assert Render(s, List([d])) == SeqForm([Tagged("MyDumbClass", CustomText(d))]);
    assert Render(s, x) == edn;
    assert Exact(s, List([d]));
    assert Exact(s, x);
    ReadRendered(s, x);
    ExactReadsBack(s, x);
    DeserializeThenSerializeRestores(s, x, "DumbClassHolder");
  }

  /**
   * The registry's consistency: the print methods are the cached
   * translators, every cached translator is the reader of its own tag, no
   * two cached translators share a tag, and every reader sits under its own tag.
   */
  ghost predicate Consistent(s: Tables) {
    && s.printMethods == s.cache
    && (forall c :: c in s.cache ==> s.cache[c].tag in s.readers && s.readers[s.cache[c].tag] == s.cache[c])
    && (forall c, d :: c in s.cache && d in s.cache && c != d ==> s.cache[c].tag != s.cache[d].tag)
    && (forall tag :: tag in s.readers ==> s.readers[tag].tag == tag)
  }

  /** A successful `registerType` installs all three entries and leaves the rest alone. */
  lemma RegisterTypeInstalls(s: Tables, c: string, t: Translator)
    requires t.tag !in s.readers
    ensures RegisterTypeStep(s, c, t).1 == Completed
    ensures var s' := RegisterTypeStep(s, c, t).0;
      && s'.cache == s.cache[c := t]
      && s'.readers == s.readers[t.tag := t]
      && s'.printMethods == s.printMethods[c := t]
      && s'.records == s.records
  {
  }

  /**
   * A tag that is already taken makes `registerType` throw after it has
   * written the cache: only the cache changes, and a consistent registry
   * whose reader for that tag is a different translator stops being consistent.
   */
  lemma RegisterTypeDuplicateTag(s: Tables, c: string, t: Translator)
    requires t.tag in s.readers
    ensures var (s', outcome) := RegisterTypeStep(s, c, t);
      && outcome == Threw(KeyAlreadyPresent)
      && s'.cache == s.cache[c := t]
      && s'.readers == s.readers && s'.printMethods == s.printMethods && s'.records == s.records
    ensures Consistent(s) && s.readers[t.tag] != t ==> !Consistent(RegisterTypeStep(s, c, t).0)
  {
    var s' := RegisterTypeStep(s, c, t).0;
    if Consistent(s) && s.readers[t.tag] != t {
      assert s'.readers[s'.cache[c].tag] != s'.cache[c];
    }
  }

  /** `deregisterType` of a class that was never registered throws and changes nothing. */
  lemma DeregisterUnregistered(s: Tables, c: string)
    requires c !in s.cache
    ensures DeregisterTypeStep(s, c) == (s, Threw(NullPointer))
  {
  }

  /** Registering a fresh class under a fresh tag and deregistering it restores every table. */
  lemma RegisterThenDeregisterRestores(s: Tables, c: string, t: Translator)
    requires c !in s.cache && c !in s.printMethods && t.tag !in s.readers
    ensures DeregisterTypeStep(RegisterTypeStep(s, c, t).0, c) == (s, Completed)
  {
    var s1 := RegisterTypeStep(s, c, t).0;
    var s2 := DeregisterTypeStep(s1, c).0;
    assert s2.cache == s.cache;
    assert s2.readers == s.readers;
    assert s2.printMethods == s.printMethods;
  }

  /**
   * Printing what the reader made of a tagged literal gives the same
   * literal back, when its tag's reader is a custom translator that is also
   * the print method of the class it reads to.
   */
  lemma ReadThenPrint(s: Tables, tag: string, body: Value)
    requires Consistent(s)
    requires tag in s.readers && s.readers[tag].Custom?
    requires ClassOf(body) == Some(s.readers[tag].cls) && s.readers[tag].cls in s.cache
    requires s.cache[s.readers[tag].cls] == s.readers[tag]
    ensures Read(ReadersOf(ReadersAsOptions(s)), Tagged(tag, CustomText(body))) == Ok(body)
    ensures Render(s, body) == Tagged(tag, CustomText(body))
  {
    var t := s.readers[tag];
    assert s.printMethods[t.cls] == t;
  }

  /** Successful registrations and deregistrations keep the registry consistent. */
  lemma RegisterTypeKeepsConsistent(s: Tables, c: string, t: Translator)
    requires Consistent(s) && t.tag !in s.readers
    ensures Consistent(RegisterTypeStep(s, c, t).0)
  {
    var s' := RegisterTypeStep(s, c, t).0;
    forall d | d in s'.cache && d != c
      ensures s'.cache[d].tag in s'.readers && s'.readers[s'.cache[d].tag] == s'.cache[d]
    {
      assert s.cache[d].tag != t.tag;
    }
  }

  lemma DeregisterTypeKeepsConsistent(s: Tables, c: string)
    requires Consistent(s)
    ensures Consistent(DeregisterTypeStep(s, c).0)
  {
    if c in s.cache {
      var s' := DeregisterTypeStep(s, c).0;
      forall d | d in s'.cache
        ensures s'.cache[d].tag in s'.readers && s'.readers[s'.cache[d].tag] == s'.cache[d]
      {
        assert s.cache[d].tag != s.cache[c].tag;
      }
    }
  }

  /** A successful `registerTag` installs a RecordTranslator whose tag is the given one. */
  lemma RegisterTagInstalls(s: Tables, c: string, tag: string)
    requires tag !in s.readers
    ensures var (s', outcome) := RegisterTagStep(s, c, tag);
      && outcome == Completed
      && c in s'.records && s'.records == s.records + {c}
      && s'.cache[c] == Record(tag, c) && s'.readers[tag].tag == tag
      && TagInstalled(s', c)
  {
  }

  /** The registry operations, for reasoning about sequences of them. */
  datatype Op =
    | RegisterType(c: string, t: Translator)
    | DeregisterType(c: string)
    | RegisterTag(c: string, tag: string)
    | DeregisterTag(c: string)

  function Step(s: Tables, op: Op): Tables {
    match op
    case RegisterType(c, t) => RegisterTypeStep(s, c, t).0
    case DeregisterType(c) => DeregisterTypeStep(s, c).0
    case RegisterTag(c, tag) => RegisterTagStep(s, c, tag).0
    case DeregisterTag(c) => DeregisterTagStep(s, c).0
  }

  function Run(s: Tables, ops: seq<Op>): Tables
    decreases ops
  {
    if ops == [] then s else Run(Step(s, ops[0]), ops[1..])
  }

  /** No sequence of registry operations ever removes a type from `records`. */
  lemma {:induction false} RecordsOnlyGrow(s: Tables, ops: seq<Op>)
    ensures s.records <= Run(s, ops).records
    decreases ops
  {
    if ops != [] {
      RecordsOnlyGrow(Step(s, ops[0]), ops[1..]);
    }
  }

  /**
   * `deregisterTag` leaves its type in `records` with no print method, so
   * `serialize` still hands the view itself to the printer, which renders
   * it in a form the reader rejects: the round trip that gave back a view
   * over an `Exact` map before deregistration now fails for every map.
   */
  lemma DeregisterTagBreaksRoundTrip(s: Tables, c: string, tag: string, o: Value)
    requires c !in s.cache && c !in s.printMethods && tag !in s.readers
    requires o.Dyn? && o.ty == c && o.backing.Map?
    ensures var s1 := RegisterTagStep(s, c, tag).0;
      Exact(s1, o.backing) ==> SerializeThenDeserialize(s1, o, c) == Ok(o)
    ensures var s2 := DeregisterTagStep(RegisterTagStep(s, c, tag).0, c).0;
      c in s2.records && SerializeThenDeserialize(s2, o, c) == Err(ReaderError)
  {
    var s1 := RegisterTagStep(s, c, tag).0;
    RegisterTagInstalls(s, c, tag);
    SerializeRoundTrip(s1, o, c);
  }

  /**
   * With `deregisterTag` as intended, registering and deregistering a tag
   * restores all four tables, and a view over an `Exact` map still comes
   * back equal from the round trip.
   */
  lemma DeregisterTagIntendedRestores(s: Tables, c: string, tag: string, o: Value)
    requires c !in s.cache && c !in s.printMethods && c !in s.records && tag !in s.readers
    requires o.Dyn? && o.ty == c && o.backing.Map?
    ensures DeregisterTagIntendedStep(RegisterTagStep(s, c, tag).0, c) == (s, Completed)
    ensures Exact(s, o.backing) ==> SerializeThenDeserialize(s, o, c) == Ok(o)
  {
    var s1 := RegisterTagStep(s, c, tag).0;
    var s2 := DeregisterTagIntendedStep(s1, c).0;
    assert s2.cache == s.cache;
    assert s2.readers == s.readers;
    assert s2.printMethods == s.printMethods;
    assert s2.records == s.records;
    SerializeRoundTrip(s, o, c);
  }

  /**
   * The static registry of the source: `translatorCache`, `readers`,
   * `records`, and the print-method entries it installs.
   */
  class TranslatorRegistry {
    var translatorCache: map<string, Translator>
    var readers: map<string, Translator>
    var printMethods: map<string, Translator>
    var records: set<string>

    /** The registry is empty at start. */
    constructor ()
      ensures Snapshot() == EmptyTables
    {
      translatorCache, readers, printMethods, records := map[], map[], map[], {};
    }

    function Snapshot(): Tables
      reads this
    {
      Tables(translatorCache, readers, printMethods, records)
    }

    method RegisterType(clazz: string, translator: Translator) returns (outcome: Outcome)
      modifies this
      ensures translatorCache == old(translatorCache)[clazz := translator]
      ensures outcome.Threw? <==> translator.tag in old(readers)
      ensures outcome.Threw? ==> outcome.error == KeyAlreadyPresent
      ensures outcome.Threw? ==> readers == old(readers) && printMethods == old(printMethods)
      ensures outcome.Completed? ==> readers == old(readers)[translator.tag := translator]
      ensures outcome.Completed? ==> printMethods == old(printMethods)[clazz := translator]
      ensures records == old(records)
      ensures (Snapshot(), outcome) == RegisterTypeStep(old(Snapshot()), clazz, translator)
    {
      translatorCache := translatorCache[clazz := translator];
      if translator.tag in readers {
        return Threw(KeyAlreadyPresent);
      }
      readers := readers[translator.tag := translator];
      printMethods := printMethods[clazz := translator];
      outcome := Completed;
    }

    method DeregisterType(clazz: string) returns (outcome: Outcome)
      modifies this
      ensures outcome.Threw? <==> clazz !in old(translatorCache)
      ensures outcome.Threw? ==> outcome.error == NullPointer && Snapshot() == old(Snapshot())
      ensures outcome.Completed? ==>
        && readers == old(readers) - {old(translatorCache)[clazz].tag}
        && printMethods == old(printMethods) - {clazz}
        && translatorCache == old(translatorCache) - {clazz}
      ensures records == old(records)
      ensures (Snapshot(), outcome) == DeregisterTypeStep(old(Snapshot()), clazz)
    {
      if clazz !in translatorCache {
        return Threw(NullPointer);
      }
      var translator := translatorCache[clazz];
      readers := readers - {translator.tag};
      printMethods := printMethods - {clazz};
      translatorCache := translatorCache - {clazz};
      outcome := Completed;
    }

    method RegisterTag(clazz: string, tag: string) returns (outcome: Outcome)
      modifies this
      ensures outcome.Threw? <==> tag in old(readers)
      ensures translatorCache == old(translatorCache)[clazz := Record(tag, clazz)]
      ensures records == if outcome.Completed? then old(records) + {clazz} else old(records)
      ensures (Snapshot(), outcome) == RegisterTagStep(old(Snapshot()), clazz, tag)
    {
      outcome := RegisterType(clazz, Record(tag, clazz));
      if outcome.Completed? {
        records := records + {clazz};
      }
    }

    method DeregisterTag(clazz: string) returns (outcome: Outcome)
      modifies this
      ensures records == old(records)
      ensures (Snapshot(), outcome) == DeregisterTagStep(old(Snapshot()), clazz)
    {
      outcome := DeregisterType(clazz);
    }
  }
}
