/**
 * The value domain shared by the typed-view engine: the host objects a
 * typed view hands in and gets back, and the persistent values its backing
 * map stores. Hashed collections are kept in their iteration order so that
 * the element-by-element loops of the converter are deterministic.
 */
module Values {

  datatype Option<+T> = None | Some(value: T)

  /** The exceptions the modelled code can raise. */
  datatype Error =
    | ClassCast             // java.lang.ClassCastException
    | NullPointer           // java.lang.NullPointerException
    | IndexOutOfBounds      // array or string index out of bounds
    | UnsupportedOperation  // java.lang.UnsupportedOperationException
    | KeyAlreadyPresent     // the persistent map's assocEx on a present key
    | ReaderError           // the reader rejected the text it was given

  /** A computation that returns a value or throws. */
  datatype Result<+T> = Ok(value: T) | Err(error: Error) {
    predicate IsFailure() { Err? }

    function PropagateFailure<U>(): Result<U>
      requires Err?
    {
      Err(error)
    }

    function Extract(): T
      requires Ok?
    {
      value
    }
  }

  /** Integral number classes: the host's boxed kinds and the store's wide kinds. */
  datatype IntKind = Byte | Short | Int | Long | BigInteger | BigInt

  /** Metadata attached to a persistent map; it never takes part in map equality. */
  datatype Meta = NoMeta | TypeMeta(ty: string)

  datatype Value =
    | Null
    | Bool(b: bool)
    | Num(kind: IntKind, n: int)
    | Str(s: string)
    | Kw(name: string)                       // a keyword, written ":" + name
    | Sym(name: string)
    | ClassRef(name: string)                 // a java.lang.Class object
    | Obj(cls: string, id: nat)              // any other host object, opaque
    | List(items: seq<Value>)                // java.util.List, persistent vector
    | Set(items: seq<Value>)                 // java.util.Set, persistent set
    | Map(entries: seq<Entry>, meta: Meta)   // java.util.Map, persistent map
    | Dyn(backing: Value, ty: string)        // a DynamicObject proxy over `backing`

  datatype Entry = Entry(key: Value, val: Value)

  /**
   * The erased classes the engine distinguishes. `DynClass` is an interface
   * that extends DynamicObject; `primitive` tells `int` from `Integer`.
   */
  datatype ClassKind =
    | NumClass(kind: IntKind, primitive: bool)
    | DynClass(name: string)
    | ListClass
    | SetClass
    | MapClass
    | OtherClass(name: string)

  /**
   * A declared (generic) type. `Wildcard` stands for every type that is
   * neither a class nor a parameterized type: wildcards and type variables.
   */
  datatype JType =
    | Class(c: ClassKind)
    | Param(base: ClassKind, args: seq<JType>)
    | Wildcard

  /** Scalars: values that none of the converter's cases rewrite. */
  predicate IsScalar(v: Value) {
    !(v.Num? || v.Dyn? || v.List? || v.Set? || v.Map?)
  }
}
