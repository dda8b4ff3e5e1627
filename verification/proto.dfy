/**
 The parsed protocol schema as the generator sees it: domains, their definitions
 (types, command parameter/result structs, event payloads) and the properties
 of struct definitions. The parser that builds these values is not part of
 this model; every value here is taken as already built.
 */
module Proto {

  datatype Option<+T> = None | Some(value: T)

  /** The three composable markers a doc comment can carry. */
  datatype Flags = Flags(optional: bool, experimental: bool, deprecated: bool)

  /** Emission shape of a definition. */
  datatype ObjType = Primitive | Struct

  /** What the definition stands for on the wire. */
  datatype CdpType = PlainType | Commands | Events

  /** One field of a struct definition. */
  datatype Property = Property(
    name: string,
    originName: string,
    typeName: string,
    description: string,
    flags: Flags)

  /**
   One schema-declared type, command or event.
   `domain` is the name of the owning domain (the back-reference of the source),
   `enum` distinguishes an absent enumeration (None) from an empty one (Some([])).
   */
  datatype Definition = Definition(
    domain: string,
    name: string,
    originName: string,
    description: string,
    objType: ObjType,
    cdpType: CdpType,
    typeName: string,
    props: seq<Property>,
    enum: Option<seq<string>>,
    flags: Flags,
    command: bool,
    returnValue: bool,
    skip: bool)

  datatype Domain = Domain(name: string, description: string, definitions: seq<Definition>)

  /** The schema snapshot: the version fields as text and the domains in schema order. */
  datatype Schema = Schema(major: string, minor: string, domains: seq<Domain>)

  /**
   The naming helpers the generator calls but whose definitions are not part
   of this model: `symbol` turns a raw identifier into an exported one,
   `jsonTag` builds a struct-field tag from the raw field name and the optional
   flag, `snakeCase` turns a domain name into a file stem.
   */
  datatype Naming = Naming(
    symbol: string -> string,
    jsonTag: (string, bool) -> string,
    snakeCase: string -> string)

  /** Every definition of a domain points back at that domain. */
  predicate OwnedBy(dom: Domain)
  {
    forall i :: 0 <= i < |dom.definitions| ==> dom.definitions[i].domain == dom.name
  }
}
