/**
 * The proxy invocation handler behind every typed view: an immutable pair
 * of a backing map and a view type, and the rules that turn a call on the
 * view into a builder update, a named operation or a field lookup.
 *
 * Reflection is abstracted: a called method is its `Signature` (name,
 * erased return type, whether it has a default body, its annotations) and
 * its arguments; a null argument array is the empty sequence.
 */
module InvocationHandler {
  import opened Values
  import Store
  import Numerics
  import DynamicObject

  datatype Annotation = KeyAnnotation(value: string) | OtherAnnotation(name: string)

  datatype Signature = Signature(
    name: string,
    returnType: ClassKind,
    isDefault: bool,
    annotations: seq<Annotation>)

  /** The handler's two final fields. */
  datatype Handler = Handler(backing: Value, ty: string)

  /** What a call does: return a value, run the interface's default body, or delegate to the map. */
  datatype Reply =
    | Return(v: Value)
    | InvokeDefault             // the default method body, run on the proxy
    | MapToString(target: Value)
    | MapHashCode(target: Value)
    | PrettyPrint(target: Value)      // pprint of the map to *out*; the call returns null
    | FormattedString(target: Value)  // pprint of the map into a string

  /** The erasure of the type parameter `T` of the DynamicObject interface's own methods. */
  const BaseInterface := "DynamicObject"

  /* ---------------- keywords and arguments ---------------- */

  /** The reader on the text of a keyword: a colon followed by a non-empty name. */
  function ReadKeyword(text: string): (r: Result<Value>)
    ensures r.Ok? <==> |text| >= 2 && text[0] == ':'
    ensures r.Ok? ==> r.value == Kw(text[1..])
  {
    if |text| >= 2 && text[0] == ':' then Ok(Kw(text[1..])) else Err(ReaderError)
  }

  /** The keyword read from `":" + name`. */
  function KeywordFor(name: string): (r: Result<Value>)
    ensures r.Ok? <==> name != []
    ensures r.Ok? ==> r.value == Kw(name)
  {
    assert (":" + name)[1..] == name;
    ReadKeyword(":" + name)
  }

  /** `args[i]`, where a method without parameters receives a null array. */
  function Arg(args: seq<Value>, i: nat): Result<Value> {
    if |args| == 0 then Err(NullPointer)
    else if i < |args| then Ok(args[i])
    else Err(IndexOutOfBounds)
  }

  /** `(String) arg`, then used in a string concatenation, where null reads as "null". */
  function StringArg(v: Value): Result<string> {
    match v
    case Str(s) => Ok(s)
    case Null => Ok("null")
    case _ => Err(ClassCast)
  }

  /** A typed view is stored as its backing map; anything else as it is. */
  function Stored(v: Value): Value {
    if v.Dyn? then v.backing else v
  }

  /** The entries of the backing map: dereferencing a null map fails. */
  function Entries(m: Value): Result<seq<Entry>> {
    match m
    case Map(es, _) => Ok(es)
    case Null => Err(NullPointer)
    case _ => Err(ClassCast)
  }

  /* ---------------- assoc, assocEx, without ---------------- */

  /**
   * `assoc(key, value)`: a new view of the same type over the map with
   * `:key` set to the value, a view argument stored as its map. An empty
   * key is rejected by the reader, a null map fails.
   */
  function Assoc(h: Handler, key: string, value: Value): (r: Result<Value>)
    ensures r.Ok? <==> key != [] && h.backing.Map?
    ensures key == [] ==> r == Err(ReaderError)
    ensures key != [] && h.backing.Null? ==> r == Err(NullPointer)
    ensures r.Ok? ==> (r.value.Dyn? && r.value.ty == h.ty && r.value.backing.Map?
                       && Store.Get(r.value.backing.entries, Kw(key)) == Some(Stored(value)))
  {
    var k :- KeywordFor(key);
    var es :- Entries(h.backing);
    Store.GetAssoc(es, k, Stored(value), k);
    Ok(DynamicObject.Wrap(Map(Store.Assoc(es, k, Stored(value)), h.backing.meta), h.ty))
  }

  /** `assocEx(key, value)`: as `assoc`, but a key already present is an error. */
  function AssocEx(h: Handler, key: string, value: Value): (r: Result<Value>)
    ensures r.Ok? <==> key != [] && h.backing.Map? && !Store.HasKey(h.backing.entries, Kw(key))
    ensures key != [] && h.backing.Map? && Store.HasKey(h.backing.entries, Kw(key)) ==> r == Err(KeyAlreadyPresent)
    ensures r.Ok? ==> r == Assoc(h, key, value)
  {
    var k :- KeywordFor(key);
    var es :- Entries(h.backing);
    if Store.HasKey(es, k) then Err(KeyAlreadyPresent)
    else Ok(DynamicObject.Wrap(Map(Store.Assoc(es, k, Stored(value)), h.backing.meta), h.ty))
  }

  /**
   * `without(key)`: a new view of the same type over the map without
   * `:key`; the map shrinks by one entry exactly when the key was present.
   */
  function Without(h: Handler, key: string): (r: Result<Value>)
    ensures r.Ok? <==> key != [] && h.backing.Map?
    ensures r.Ok? ==> (r.value.Dyn? && r.value.ty == h.ty && r.value.backing.Map?
                       && |r.value.backing.entries|
                          == |h.backing.entries| - if Store.HasKey(h.backing.entries, Kw(key)) then 1 else 0)
  {
    var k :- KeywordFor(key);
    var es :- Entries(h.backing);
    Ok(DynamicObject.Wrap(Map(Store.Without(es, k), h.backing.meta), h.ty))
  }

  /** The persistent map's `equals`: another map with the same entries, metadata ignored. */
  function MapEquals(m: Value, other: Value): Result<bool> {
    var es :- Entries(m);
    Ok(other.Map? && Store.MapEquals(es, other.entries))
  }

  /* ---------------- field lookup ---------------- */

  /** The position of the first `@Key` annotation, if there is one. */
  function FirstKeyIndex(anns: seq<Annotation>): (r: Option<nat>)
    ensures r.Some? ==> r.value < |anns| && anns[r.value].KeyAnnotation?
    ensures r.Some? ==> forall j :: 0 <= j < r.value ==> !anns[j].KeyAnnotation?
    ensures r.None? <==> forall j :: 0 <= j < |anns| ==> !anns[j].KeyAnnotation?
  {
    if anns == [] then None
    else if anns[0].KeyAnnotation? then Some(0)
    else match FirstKeyIndex(anns[1..])
      case None => None
      case Some(i) => Some(i + 1)
  }

  /** The text read for a `@Key` value: a colon is added only when the value lacks one. */
  function KeyText(key: string): string
    requires key != []
  {
    if key[0] != ':' then ":" + key else key
  }

  /** The map entry for `k`, if present. */
  function EntryAt(es: seq<Entry>, k: Value): Option<Entry> {
    match Store.IndexOf(es, k)
    case Some(i) => Some(es[i])
    case None => None
  }

  /**
   * `getNonDefaultKey`: the entry named by the first `@Key` annotation, if
   * the map has one. An empty key fails at `charAt(0)`, and the key ":"
   * is a bare colon the reader rejects.
   */
  function NonDefaultKey(es: seq<Entry>, anns: seq<Annotation>): (r: Result<Option<Entry>>)
    ensures FirstKeyIndex(anns).None? ==> r == Ok(None)
    ensures FirstKeyIndex(anns).Some? && anns[FirstKeyIndex(anns).value].value == [] ==> r == Err(IndexOutOfBounds)
    ensures r.Err? <==> FirstKeyIndex(anns).Some? && anns[FirstKeyIndex(anns).value].value in {[], ":"}
    ensures r.Ok? && r.value.Some? ==> r.value.value in es
  {
    match FirstKeyIndex(anns)
    case None => Ok(None)
    case Some(i) =>
      var key := anns[i].value;
      if key == [] then Err(IndexOutOfBounds)
      else
        assert key == ":" <==> |KeyText(key)| < 2;
        var k :- ReadKeyword(KeyText(key));
        var e := EntryAt(es, k);
        assert e.Some? ==> e.value == es[Store.IndexOf(es, k).value];
        Ok(e)
  }

  /** `getNonDefaultKey` as the source writes it: scan the annotations, stop at the first `@Key`. */
  method GetNonDefaultKey(es: seq<Entry>, anns: seq<Annotation>) returns (r: Result<Option<Entry>>)
    ensures r == NonDefaultKey(es, anns)
  {
    var i := 0;
    while i < |anns|
      invariant 0 <= i <= |anns|
      invariant forall j :: 0 <= j < i ==> !anns[j].KeyAnnotation?
    {
      if anns[i].KeyAnnotation? {
        var key := anns[i].value;
        if key == [] {
          return Err(IndexOutOfBounds);
        }
        if key[0] != ':' {
          key := ":" + key;
        }
        var k := ReadKeyword(key);
        if k.Err? {
          return Err(k.error);
        }
        return Ok(EntryAt(es, k.value));
      }
      i := i + 1;
    }
    return Ok(None);
  }

  /** The entry `getValueFor` uses: `:name` first, the `@Key` entry only when `:name` is absent. */
  function ResolveEntry(es: seq<Entry>, k: Value, anns: seq<Annotation>): Result<Option<Entry>> {
    match EntryAt(es, k)
    case Some(e) => Ok(Some(e))
    case None => NonDefaultKey(es, anns)
  }

  /**
   * `returnInt`: an Integer passes, anything else is cast to Long and
   * truncated to an int that agrees with it modulo 2^32.
   */
  function ReturnInt(v: Value): (r: Result<Value>)
    ensures r.Ok? <==> v.Num? && (v.kind == Int || v.kind == Long)
    ensures v.Null? ==> r == Err(NullPointer)
    ensures r.Ok? ==> r.value.Num? && r.value.kind == Int
    ensures v.Num? && v.kind == Int ==> r == Ok(v)
    ensures v.Num? && v.kind == Long ==>
      Numerics.Fits(Int, r.value.n) && r.value.n % 0x1_0000_0000 == v.n % 0x1_0000_0000
  {
    match v
    case Num(Int, n) => Ok(Num(Int, n))
    case Num(Long, n) => Ok(Num(Int, Numerics.NarrowTo(Int, n)))
    case Null => Err(NullPointer)
    case _ => Err(ClassCast)
  }

  /**
   * `returnShort`: a Short passes, an Integer or a Long is truncated to a
   * short that agrees with it modulo 2^16.
   */
  function ReturnShort(v: Value): (r: Result<Value>)
    ensures r.Ok? <==> v.Num? && (v.kind == Short || v.kind == Int || v.kind == Long)
    ensures v.Null? ==> r == Err(NullPointer)
    ensures r.Ok? ==> r.value.Num? && r.value.kind == Short
    ensures v.Num? && v.kind == Short ==> r == Ok(v)
    ensures v.Num? && (v.kind == Int || v.kind == Long) ==>
      Numerics.Fits(Short, r.value.n) && r.value.n % 0x1_0000 == v.n % 0x1_0000
  {
    match v
    case Num(Short, n) => Ok(Num(Short, n))
    case Num(Int, n) => Ok(Num(Short, Numerics.NarrowTo(Short, n)))
    case Num(Long, n) => Ok(Num(Short, Numerics.NarrowTo(Short, n)))
    case Null => Err(NullPointer)
    case _ => Err(ClassCast)
  }

  /** `(IPersistentMap) x` and wrap it as view type `c`. */
  function WrapAs(x: Value, c: string): Result<Value> {
    if x.Map? || x.Null? then Ok(DynamicObject.Wrap(x, c)) else Err(ClassCast)
  }

  /**
   * `getValueFor`. A typed-view return type wraps the value stored under
   * `:name`, whichever entry was found.
   */
  function GetValueFor(h: Handler, m: Signature): (r: Result<Value>)
    ensures m.name == [] ==> r == Err(ReaderError)
    ensures m.name != [] && h.backing.Null? ==> r == Err(NullPointer)
    ensures r.Ok? && m.returnType.DynClass? ==> r.value.Null? || (r.value.Dyn? && r.value.ty == m.returnType.name)
    ensures r.Ok? && m.returnType.NumClass? && m.returnType.kind in {Int, Short} ==>
      r.value.Null? || (r.value.Num? && r.value.kind == m.returnType.kind)
  {
    var k :- KeywordFor(m.name);
    var es :- Entries(h.backing);
    var entry :- ResolveEntry(es, k, m.annotations);
    match entry
    case None => Ok(Null)
    case Some(e) =>
      match m.returnType
      case NumClass(Int, _) => ReturnInt(e.val)
      case NumClass(Short, _) => ReturnShort(e.val)
      case DynClass(c) => WrapAs(match Store.Get(es, k) case Some(x) => x case None => Null, c)
      case _ => Ok(e.val)
  }

  /** `getValueFor` with a typed-view return type wrapping the entry that was found. */
  function GetValueForIntended(h: Handler, m: Signature): Result<Value> {
    var k :- KeywordFor(m.name);
    var es :- Entries(h.backing);
    var entry :- ResolveEntry(es, k, m.annotations);
    match entry
    case None => Ok(Null)
    case Some(e) =>
      match m.returnType
      case NumClass(Int, _) => ReturnInt(e.val)
      case NumClass(Short, _) => ReturnShort(e.val)
      case DynClass(c) => WrapAs(e.val, c)
      case _ => Ok(e.val)
  }

  /* ---------------- invoke ---------------- */

  function Returning(r: Result<Value>): Result<Reply> {
    var v :- r;
    Ok(Return(v))
  }

  /**
   * The dispatch of `invoke`: the builder rule, then default methods, then
   * the named operations (`removal` names the one that removes a key), and
   * anything else is the field lookup `fallback`.
   */
  function Dispatch(h: Handler, m: Signature, args: seq<Value>, removal: string, fallback: Result<Value>)
    : Result<Reply>
  {
    if m.returnType == DynClass(h.ty) && |args| > 0 then Returning(Assoc(h, m.name, args[0]))
    else if m.isDefault then Ok(InvokeDefault)
    else if m.name == "getMap" then Ok(Return(h.backing))
    else if m.name == "getType" then Ok(Return(ClassRef(h.ty)))
    else if m.name == "assoc" then
      var a0 :- Arg(args, 0);
      var key :- StringArg(a0);
      var a1 :- Arg(args, 1);
      Returning(Assoc(h, key, a1))
    else if m.name == "assocEx" then
      var a0 :- Arg(args, 0);
      var key :- StringArg(a0);
      var a1 :- Arg(args, 1);
      Returning(AssocEx(h, key, a1))
    else if m.name == removal then
      var a0 :- Arg(args, 0);
      var key :- StringArg(a0);
      Returning(Without(h, key))
    else if m.name == "toString" then
      if h.backing.Null? then Err(NullPointer) else Ok(MapToString(h.backing))
    else if m.name == "hashCode" then
      if h.backing.Null? then Err(NullPointer) else Ok(MapHashCode(h.backing))
    else if m.name == "prettyPrint" then Ok(PrettyPrint(h.backing))
    else if m.name == "toFormattedString" then Ok(FormattedString(h.backing))
    else if m.name == "equals" then
      var other :- Arg(args, 0);
      var eq :- MapEquals(h.backing, Stored(other));
      Ok(Return(Bool(eq)))
    else Returning(fallback)
  }

  /**
   * `invoke` as written: only "dissoc" removes a key. The builder rule comes
   * before everything else, even a default body, and yields a view of the
   * handler's own type.
   */
  function Invoke(h: Handler, m: Signature, args: seq<Value>): (r: Result<Reply>)
    ensures m.returnType == DynClass(h.ty) && |args| > 0 && m.name != [] && h.backing.Map? ==>
      r.Ok? && r.value.Return? && r.value.v.Dyn? && r.value.v.ty == h.ty
    ensures !(m.returnType == DynClass(h.ty) && |args| > 0) && m.isDefault ==> r == Ok(InvokeDefault)
  {
    Dispatch(h, m, args, "dissoc", GetValueFor(h, m))
  }

  /** `invoke` as the interface declares it: its `without` removes a key, and lookups wrap what they found. */
  function InvokeIntended(h: Handler, m: Signature, args: seq<Value>): Result<Reply> {
    Dispatch(h, m, args, "without", GetValueForIntended(h, m))
  }
}
