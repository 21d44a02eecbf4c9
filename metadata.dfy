/** Explicit class descriptors standing in for Java reflection, the values a
    field can hold, and the mutable entity instances the manager reads and
    writes. */
module Metadata {
  import opened Wrappers

  /** The declared type of a field, as `Field.getType()` reports it. */
  datatype Kind =
    | IntKind | LongKind | DoubleKind | FloatKind | BooleanKind  // primitives
    | StringKind
    | CollectionKind                // any subtype of java.util.Collection
    | ClassKind(name: string)       // any other class; names an entity class

  datatype FieldDecl = FieldDecl(name: string, kind: Kind)

  /** A class: its simple name, the name given in its table annotation (if
      any) and its declared fields in declaration order. */
  datatype ClassDesc = ClassDesc(simpleName: string, table: Option<string>, fields: seq<FieldDecl>)

  /** The entity classes, by simple name. */
  type Registry = map<string, ClassDesc>

  predicate IsPrimitive(k: Kind) {
    k.IntKind? || k.LongKind? || k.DoubleKind? || k.FloatKind? || k.BooleanKind?
  }

  /** The predicate used to find entity references when populating an
      instance and when deriving table definitions: not primitive, not
      String, not a Collection. */
  predicate IsEntityField(k: Kind) {
    !IsPrimitive(k) && !k.StringKind? && !k.CollectionKind?
  }

  /** `isReferenceField`: not primitive and not String. Unlike
      IsEntityField it does not exclude Collections. */
  predicate IsReferenceField(k: Kind): (b: bool)
    ensures b <==> IsEntityField(k) || k == CollectionKind
    ensures IsEntityField(k) ==> b
  {
    !IsPrimitive(k) && !k.StringKind?
  }

  ghost predicate DistinctNames(fs: seq<FieldDecl>) {
    forall i, j :: 0 <= i < j < |fs| ==> fs[i].name != fs[j].name
  }

  /** What the Java compiler guarantees of the classes: each is registered
      under its own simple name and declares each field name once. */
  ghost predicate WellFormed(reg: Registry) {
    forall n :: n in reg ==> reg[n].simpleName == n && DistinctNames(reg[n].fields)
  }

  /** The kind of the field named `name`, as `getDeclaredField(name)` finds it. */
  function FieldKind(fs: seq<FieldDecl>, name: string): (r: Option<Kind>)
    ensures r.None? <==> forall i :: 0 <= i < |fs| ==> fs[i].name != name
    ensures r.Some? ==> exists i :: 0 <= i < |fs| && fs[i] == FieldDecl(name, r.value)
  {
    if fs == [] then None
    else if fs[0].name == name then Some(fs[0].kind)
    else
      var r := FieldKind(fs[1..], name);
      assert r.Some? ==> exists i :: 1 <= i < |fs| && fs[i] == FieldDecl(name, r.value) by {
        if r.Some? {
          var i :| 0 <= i < |fs[1..]| && fs[1..][i] == FieldDecl(name, r.value);
          assert fs[i + 1] == fs[1..][i];
        }
      }
      r
  }

  /** With distinct names, looking a declared field up by its own name
      finds that field's kind. */
  lemma FieldKindAt(fs: seq<FieldDecl>, i: nat)
    requires DistinctNames(fs) && i < |fs|
    ensures FieldKind(fs, fs[i].name) == Some(fs[i].kind)
  {
    var r := FieldKind(fs, fs[i].name);
    var j :| 0 <= j < |fs| && fs[j] == FieldDecl(fs[i].name, r.value);
    assert j == i;
  }

  /** What a field holds. `Ref` is a reference to another instance. */
  datatype Value =
    | Null
    | IntV(i: int)
    | LongV(l: int)
    | RealV(r: real)
    | BoolV(b: bool)
    | TextV(s: string)
    | CollV
    | Ref(obj: Entity)

  /** The value a freshly constructed instance holds in a field of kind `k`. */
  function Default(k: Kind): (v: Value) {
    match k
    case IntKind => IntV(0)
    case LongKind => LongV(0)
    case DoubleKind => RealV(0.0)
    case FloatKind => RealV(0.0)
    case BooleanKind => BoolV(false)
    case _ => Null
  }

  /** The declared field names, as a set. */
  function NameSet(fs: seq<FieldDecl>): (r: set<string>)
    ensures forall i :: 0 <= i < |fs| ==> fs[i].name in r
  {
    if fs == [] then {}
    else
      var n := |fs| - 1;
      assert forall i :: 0 <= i < n ==> fs[..n][i] == fs[i];
      NameSet(fs[..n]) + {fs[n].name}
  }

  /** A prefix of a field list with distinct names has distinct names. */
  lemma DistinctPrefix(fs: seq<FieldDecl>, n: nat)
    requires n <= |fs|
    ensures DistinctNames(fs) ==> DistinctNames(fs[..n])
  {
    if DistinctNames(fs) {
      forall i, j | 0 <= i < j < n ensures fs[..n][i].name != fs[..n][j].name {
        assert fs[..n][i] == fs[i] && fs[..n][j] == fs[j];
      }
    }
  }

  /** The fields of a fresh instance created by its no-argument constructor. */
  function DefaultFields(fs: seq<FieldDecl>): (m: map<string, Value>)
    ensures m.Keys == NameSet(fs)
    ensures DistinctNames(fs) ==> forall i :: 0 <= i < |fs| ==> m[fs[i].name] == Default(fs[i].kind)
  {
    if fs == [] then map[]
    else
      var n := |fs| - 1;
      DistinctPrefix(fs, n);
      assert forall i :: 0 <= i < n ==> fs[..n][i] == fs[i];
      DefaultFields(fs[..n])[fs[n].name := Default(fs[n].kind)]
  }

  /** An instance of an entity class; `fields` maps each declared field name
      to what the instance holds there. */
  class Entity {
    const cls: string
    var fields: map<string, Value>

    constructor (cls: string, fields: map<string, Value>)
      ensures this.cls == cls && this.fields == fields
    {
      this.cls := cls;
      this.fields := fields;
    }
  }
}
