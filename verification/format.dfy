/**
 Declaration shaping and test-stub selection for one definition. The emitted
 Go code is represented structurally: a primitive type declaration with its
 optional enum constant block, or a struct declaration with its fields and
 the methods attached to it.
 */
module Format {
  import opened Proto
  import opened Comments

  /** One line of an enum const block: `Name Type = "value"`. */
  datatype EnumConst = EnumConst(name: string, typ: string, value: string)

  /** One struct field: doc comment, name, type and serialization tag. */
  datatype Field = Field(comment: string, name: string, typ: string, tag: string)

  /** What `Call` passes to the dispatch primitive as its result target. */
  datatype ResultTarget = ResultAddress | NilResult

  /**
   A method attached to a struct declaration. `results` lists the Go result
   types of `Call` in order.
   */
  datatype Method =
    | ProtoReq(receiver: string, wireMethod: string)
    | Call(receiver: string, results: seq<string>, target: ResultTarget)
    | ProtoEvent(receiver: string, event: string)

  datatype Decl =
    | TypeDecl(comment: string, name: string, underlying: string, consts: Option<seq<EnumConst>>)
    | StructDecl(comment: string, name: string, fields: seq<Field>, methods: seq<Method>)

  /** A smoke test: a call of `Call` (keeping or discarding a result) or of `ProtoEvent`. */
  datatype TestStub = CallTest(name: string, discardsResult: bool) | EventTest(name: string)

  /** The wire name `<domain>.<originName>` of a command or event. */
  function WireName(d: Definition): string
  {
    d.domain + "." + d.originName
  }

  /** The enum const block of a primitive: one constant per value, in enum order. */
  function EnumConsts(naming: Naming, typeName: string, values: seq<string>): (cs: seq<EnumConst>)
    ensures |cs| == |values|
    ensures forall i :: 0 <= i < |values| ==>
              cs[i] == EnumConst(typeName + naming.symbol(values[i]), typeName, values[i])
  {
    if values == [] then []
    else [EnumConst(typeName + naming.symbol(values[0]), typeName, values[0])]
         + EnumConsts(naming, typeName, values[1..])
  }

  /** The fields of a struct: one per property, in property order. */
  function Fields(naming: Naming, props: seq<Property>): (fs: seq<Field>)
    ensures |fs| == |props|
    ensures forall i :: 0 <= i < |props| ==>
              fs[i] == Field(PropertyComment(naming, props[i]), props[i].name, props[i].typeName,
                             naming.jsonTag(props[i].originName, props[i].flags.optional))
  {
    if props == [] then []
    else
      var p := props[0];
      [Field(PropertyComment(naming, p), p.name, p.typeName, naming.jsonTag(p.originName, p.flags.optional))]
      + Fields(naming, props[1..])
  }

  /** The request bindings of a command parameter struct. */
  function CommandMethods(d: Definition): seq<Method>
  {
    if !d.command then []
    else if d.returnValue then
      [ProtoReq(d.name, WireName(d)), Call(d.name, ["*" + d.name + "Result", "error"], ResultAddress)]
    else
      [ProtoReq(d.name, WireName(d)), Call(d.name, ["error"], NilResult)]
  }

  /** The event accessor of an event payload struct. */
  function EventMethods(d: Definition): seq<Method>
  {
    if d.cdpType == Events then [ProtoEvent(d.name, WireName(d))] else []
  }

  /** The declaration emitted for one definition. */
  function FormatDefinition(naming: Naming, d: Definition): Decl
  {
    match d.objType
    case Primitive =>
      var consts := match d.enum
        case None => None
        case Some(values) => Some(EnumConsts(naming, d.name, values));
      TypeDecl(DefinitionComment(naming, d), d.name, d.typeName, consts)
    case Struct =>
      StructDecl(DefinitionComment(naming, d), d.name, Fields(naming, d.props),
                 CommandMethods(d) + EventMethods(d))
  }

  /** The smoke test emitted for one definition, None for the empty text. */
  function FormatTests(d: Definition): Option<TestStub>
  {
    match d.cdpType
    case Commands => if !d.command then None else Some(CallTest(d.name, d.returnValue))
    case Events => Some(EventTest(d.name))
    case PlainType => None
  }

  // ---------------------------------------------------------------------------
  // Views of an emitted declaration

  function Methods(decl: Decl): seq<Method>
  {
    match decl
    case TypeDecl(_, _, _, _) => []
    case StructDecl(_, _, _, ms) => ms
  }

  /** Wire names returned by the ProtoReq methods, in order. */
  function ProtoReqs(ms: seq<Method>): seq<string>
  {
    if ms == [] then []
    else (if ms[0].ProtoReq? then [ms[0].wireMethod] else []) + ProtoReqs(ms[1..])
  }

  /** Result types and result targets of the Call methods, in order. */
  function Calls(ms: seq<Method>): seq<(seq<string>, ResultTarget)>
  {
    if ms == [] then []
    else (if ms[0].Call? then [(ms[0].results, ms[0].target)] else []) + Calls(ms[1..])
  }

  /** Wire names returned by the ProtoEvent methods, in order. */
  function ProtoEvents(ms: seq<Method>): seq<string>
  {
    if ms == [] then []
    else (if ms[0].ProtoEvent? then [ms[0].event] else []) + ProtoEvents(ms[1..])
  }

  /** The literal values carried by an enum const block, in order. */
  function ConstValues(cs: seq<EnumConst>): (vs: seq<string>)
    ensures |vs| == |cs|
    ensures forall i :: 0 <= i < |cs| ==> vs[i] == cs[i].value
  {
    if cs == [] then [] else [cs[0].value] + ConstValues(cs[1..])
  }

  lemma {:induction false} ProtoReqsAppend(a: seq<Method>, b: seq<Method>)
    ensures ProtoReqs(a + b) == ProtoReqs(a) + ProtoReqs(b)
    decreases |a|
  {
    if a == [] {
      assert a + b == b;
    } else {
      var head := if a[0].ProtoReq? then [a[0].wireMethod] else [];
      assert (a + b)[0] == a[0];
      assert (a + b)[1..] == a[1..] + b;
      ProtoReqsAppend(a[1..], b);
      assert head + (ProtoReqs(a[1..]) + ProtoReqs(b)) == (head + ProtoReqs(a[1..])) + ProtoReqs(b);
    }
  }

  lemma {:induction false} CallsAppend(a: seq<Method>, b: seq<Method>)
    ensures Calls(a + b) == Calls(a) + Calls(b)
    decreases |a|
  {
    if a == [] {
      assert a + b == b;
    } else {
      var head := if a[0].Call? then [(a[0].results, a[0].target)] else [];
      assert (a + b)[0] == a[0];
      assert (a + b)[1..] == a[1..] + b;
      CallsAppend(a[1..], b);
      assert head + (Calls(a[1..]) + Calls(b)) == (head + Calls(a[1..])) + Calls(b);
    }
  }

  lemma {:induction false} ProtoEventsAppend(a: seq<Method>, b: seq<Method>)
    ensures ProtoEvents(a + b) == ProtoEvents(a) + ProtoEvents(b)
    decreases |a|
  {
    if a == [] {
      assert a + b == b;
    } else {
      var head := if a[0].ProtoEvent? then [a[0].event] else [];
      assert (a + b)[0] == a[0];
      assert (a + b)[1..] == a[1..] + b;
      ProtoEventsAppend(a[1..], b);
      assert head + (ProtoEvents(a[1..]) + ProtoEvents(b)) == (head + ProtoEvents(a[1..])) + ProtoEvents(b);
    }
  }

  lemma ViewsDistribute(a: seq<Method>, b: seq<Method>)
    ensures ProtoReqs(a + b) == ProtoReqs(a) + ProtoReqs(b)
    ensures Calls(a + b) == Calls(a) + Calls(b)
    ensures ProtoEvents(a + b) == ProtoEvents(a) + ProtoEvents(b)
  {
    ProtoReqsAppend(a, b);
    CallsAppend(a, b);
    ProtoEventsAppend(a, b);
  }

  // ---------------------------------------------------------------------------
  // Properties of one declaration

  /**
   A primitive becomes a type declaration with its doc comment and resolved
   type. The const block is there exactly when the enum is (an empty enum
   gives an empty block); it holds one constant per enum value, in enum order,
   named after the type plus the symbolised value, typed by the declared type,
   carrying the value verbatim.
   */
  lemma PrimitiveShape(naming: Naming, d: Definition)
    requires d.objType == Primitive
    ensures var decl := FormatDefinition(naming, d);
            && decl.TypeDecl?
            && decl.comment == DefinitionComment(naming, d)
            && decl.name == d.name
            && decl.underlying == d.typeName
            && (decl.consts.Some? <==> d.enum.Some?)
            && (d.enum.Some? ==>
                  && |decl.consts.value| == |d.enum.value|
                  && ConstValues(decl.consts.value) == d.enum.value
                  && forall i :: 0 <= i < |d.enum.value| ==>
                       && decl.consts.value[i].name == d.name + naming.symbol(d.enum.value[i])
                       && decl.consts.value[i].typ == d.name)
  {
    if d.enum.Some? {
      EnumValuesKept(naming, d.name, d.enum.value);
    }
  }

  /** Reading the literal values back off the const block gives the enum verbatim. */
  lemma {:induction false} EnumValuesKept(naming: Naming, typeName: string, values: seq<string>)
    ensures ConstValues(EnumConsts(naming, typeName, values)) == values
    decreases |values|
  {
    if values != [] {
      EnumValuesKept(naming, typeName, values[1..]);
      assert values == [values[0]] + values[1..];
    }
  }

  /**
   Constant names do not clash when the enum has no repeated value and the
   symbol function keeps its distinct values apart.
   */
  lemma ConstNamesDistinct(naming: Naming, typeName: string, values: seq<string>)
    requires forall i, j :: 0 <= i < j < |values| ==> values[i] != values[j]
    requires forall a, b :: a in values && b in values && a != b ==> naming.symbol(a) != naming.symbol(b)
    ensures var cs := EnumConsts(naming, typeName, values);
            forall i, j :: 0 <= i < j < |cs| ==> cs[i].name != cs[j].name
  {
    var cs := EnumConsts(naming, typeName, values);
    forall i, j | 0 <= i < j < |cs|
      ensures cs[i].name != cs[j].name
    {
      assert values[i] in values && values[j] in values;
      var a := naming.symbol(values[i]);
      var b := naming.symbol(values[j]);
      assert (typeName + a)[|typeName|..] == a;
      assert (typeName + b)[|typeName|..] == b;
    }
  }

  /**
   A struct becomes a struct declaration with one field per property in
   property order, each with the property's comment, name and type and the
   tag built from its raw name and optional flag.
   */
  lemma StructShape(naming: Naming, d: Definition)
    requires d.objType == Struct
    ensures var decl := FormatDefinition(naming, d);
            && decl.StructDecl?
            && decl.comment == DefinitionComment(naming, d)
            && decl.name == d.name
            && |decl.fields| == |d.props|
            && forall i :: 0 <= i < |d.props| ==>
                 && decl.fields[i].name == d.props[i].name
                 && decl.fields[i].typ == d.props[i].typeName
                 && decl.fields[i].tag == naming.jsonTag(d.props[i].originName, d.props[i].flags.optional)
                 && decl.fields[i].comment == PropertyComment(naming, d.props[i])
  {
  }

  /**
   Bindings of one declaration. A struct with the command flag gets exactly
   one ProtoReq returning its wire name and exactly one Call; with a return
   value Call yields a pointer to `<name>Result` and an error and passes the
   address of the result, without one it yields only an error and passes nil.
   A struct gets exactly one ProtoEvent returning its wire name exactly when it
   is an event. Primitives get no method at all, and every method's receiver
   is the declared type.
   */
  lemma Bindings(naming: Naming, d: Definition)
    ensures var ms := Methods(FormatDefinition(naming, d));
            && (d.objType == Primitive ==> ms == [])
            && (forall i :: 0 <= i < |ms| ==> ms[i].receiver == d.name)
            && ProtoReqs(ms) == (if d.objType == Struct && d.command then [d.domain + "." + d.originName] else [])
            && Calls(ms) == (if d.objType == Struct && d.command
                             then (if d.returnValue then [(["*" + d.name + "Result", "error"], ResultAddress)]
                                   else [(["error"], NilResult)])
                             else [])
            && ProtoEvents(ms) == (if d.objType == Struct && d.cdpType == Events
                                   then [d.domain + "." + d.originName] else [])
  {
    if d.objType == Struct {
      var cm := CommandMethods(d);
      var em := EventMethods(d);
      ViewsDistribute(cm, em);
      if d.command {
        assert cm == [cm[0]] + [cm[1]];
        ViewsDistribute([cm[0]], [cm[1]]);
      }
    }
  }

  /**
   Test-stub selection: a stub is emitted exactly for commands with the
   command flag and for events; a command stub discards a result exactly when
   the command has a return value; every stub is named after the definition.
   */
  lemma TestSelection(d: Definition)
    ensures FormatTests(d).Some? <==> (d.cdpType == Commands && d.command) || d.cdpType == Events
    ensures FormatTests(d).Some? && FormatTests(d).value.CallTest? ==>
              d.cdpType == Commands && FormatTests(d).value.discardsResult == d.returnValue
    ensures FormatTests(d).Some? && FormatTests(d).value.EventTest? ==> d.cdpType == Events
    ensures FormatTests(d).Some? ==> FormatTests(d).value.name == d.name
  {
  }

  /**
   Every smoke test of a struct definition exercises a binding its declaration
   has, with the matching shape: a call test that discards a result calls a
   two-result Call, one that does not calls a one-result Call, and an event
   test calls the single ProtoEvent accessor.
   */
  lemma TestsExerciseBindings(naming: Naming, d: Definition)
    requires d.objType == Struct
    requires FormatTests(d).Some?
    ensures var decl := FormatDefinition(naming, d);
            var ms := Methods(decl);
            var t := FormatTests(d).value;
            && t.name == decl.name
            && (t.CallTest? ==> |Calls(ms)| == 1 && (|Calls(ms)[0].0| == 2 <==> t.discardsResult))
            && (t.EventTest? ==> |ProtoEvents(ms)| == 1)
  {
    Bindings(naming, d);
  }
}
