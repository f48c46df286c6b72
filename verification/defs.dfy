/**
  The reference entries of components/HaskellRef.tsx: a value or function
  with its signature, a type, newtype or data declaration, or a type class.
  Optional properties are `Option`s; the description, a React node in the
  component, is modelled as optional text.
*/
module Defs {
  import opened Options

  /** The six kinds an entry can have, in the order of the badge colour table. */
  datatype Kind = Value | Function | Type | Newtype | Data | Class

  const AllKinds: seq<Kind> := [Value, Function, Type, Newtype, Data, Class]

  /** The kind as the component spells it: its badge text and the word that opens a signature. */
  function KindName(k: Kind): string {
    match k
    case Value => "value"
    case Function => "function"
    case Type => "type"
    case Newtype => "newtype"
    case Data => "data"
    case Class => "class"
  }

  /** Every kind is listed once, and the kind names tell the kinds apart. */
  lemma KindsAndNames()
    ensures forall k: Kind :: k in AllKinds
    ensures forall i, j :: 0 <= i < j < |AllKinds| ==> AllKinds[i] != AllKinds[j]
    ensures forall a: Kind, b: Kind :: KindName(a) == KindName(b) ==> a == b
  {
    forall k: Kind
      ensures k in AllKinds
    {
      match k
      case Value => assert AllKinds[0] == k;
      case Function => assert AllKinds[1] == k;
      case Type => assert AllKinds[2] == k;
      case Newtype => assert AllKinds[3] == k;
      case Data => assert AllKinds[4] == k;
      case Class => assert AllKinds[5] == k;
    }
  }

  type ValueKind = k: Kind | k == Value || k == Function witness Value

  type TypeKind = k: Kind | k == Type || k == Newtype || k == Data witness Data

  /** A record field of a constructor: name and type. */
  datatype Field = Field(name: string, fieldType: string)

  datatype Constructor = Constructor(name: string, fields: Option<seq<Field>>, args: Option<seq<string>>)

  /** A type-class method; isDefault marks a method with a default implementation. */
  datatype Method = Method(name: string, signature: string, description: Option<string>, isDefault: Option<bool>)

  /** The properties every entry has. */
  datatype Base = Base(
    name: string,
    moduleName: Option<string>,
    description: Option<string>,
    since: Option<string>,
    deprecated: Option<string>,
    example: Option<string>)

  datatype HaskellDef =
    | ValueRef(valueKind: ValueKind, base: Base, signature: string)
    | TypeRef(typeKind: TypeKind, base: Base, params: Option<seq<string>>,
              constructors: Option<seq<Constructor>>, instances: Option<seq<string>>)
    | TypeclassRef(base: Base, classParams: seq<string>, constraints: Option<seq<string>>,
                   methods: seq<Method>, laws: Option<seq<string>>)

  /** `def.kind`: the tag that selects the variant. */
  function KindOf(d: HaskellDef): (k: Kind)
    ensures d.ValueRef? <==> k == Value || k == Function
    ensures d.TypeRef? <==> k == Type || k == Newtype || k == Data
    ensures d.TypeclassRef? <==> k == Class
  {
    match d
    case ValueRef(k, _, _) => k
    case TypeRef(k, _, _, _, _) => k
    case TypeclassRef(_, _, _, _, _) => Class
  }
}
