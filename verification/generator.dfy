/**
 The generator's main pass: one traversal of the domains in schema order that
 produces one source unit per domain (header block plus the declarations of
 its non-skipped definitions), the registry of wire names to generated types,
 the aggregate smoke tests and the protocol version constant.
 */
module Generator {
  import opened Proto
  import opened Format
  import opened Seqs

  /** One registry line: `"<wire name>": reflect.TypeOf(<type>{})`. */
  datatype Entry = Entry(wireName: string, typeName: string)

  /** The source unit of one domain; `file` is the snake-case stem of its file name. */
  datatype DomainUnit = DomainUnit(file: string, header: string, decls: seq<Decl>)

  datatype Output = Output(
    version: string,
    registry: seq<Entry>,
    units: seq<DomainUnit>,
    tests: seq<TestStub>)

  /** The `Version` constant of the registry unit. */
  function Version(major: string, minor: string): string
  {
    "v" + major + "." + minor
  }

  const HeaderOpen := "/*\n\n"
  const HeaderClose := "*/\n\n"
  const BlankLine := "\n\n"

  /** The comment block opening a domain's unit: its name, then its description if it has one. */
  function Header(dom: Domain): string
  {
    HeaderOpen + (dom.name + BlankLine + HeaderTail(dom.description))
  }

  /** What follows the name: the description and a blank line if there is one, then the closing delimiter. */
  function HeaderTail(description: string): string
  {
    (if description != "" then description + BlankLine else "") + HeaderClose
  }

  predicate Emitted(d: Definition)
  {
    !d.skip
  }

  predicate Registered(d: Definition)
  {
    !d.skip && d.originName != ""
  }

  function EntryOf(d: Definition): Entry
  {
    Entry(WireName(d), d.name)
  }

  function Formatter(naming: Naming): Definition -> Decl
  {
    d => FormatDefinition(naming, d)
  }

  /** All definitions of all domains, in traversal order. */
  function AllDefinitions(ds: seq<Domain>): seq<Definition>
  {
    if ds == [] then [] else ds[0].definitions + AllDefinitions(ds[1..])
  }

  /** The unit of one domain: header, then one declaration per non-skipped definition in order. */
  function UnitOf(naming: Naming, dom: Domain): DomainUnit
  {
    DomainUnit(naming.snakeCase(dom.name), Header(dom), DomainDecls(naming, dom.definitions))
  }

  /** The registry: one entry per non-skipped definition with an origin name, in traversal order. */
  function Registry(ds: seq<Domain>): seq<Entry>
  {
    Map(Filter(AllDefinitions(ds), Registered), EntryOf)
  }

  /** The aggregate tests: the stubs of the non-skipped definitions, in traversal order. */
  function TestUnit(ds: seq<Domain>): seq<TestStub>
  {
    Somes(Map(Filter(AllDefinitions(ds), Emitted), FormatTests))
  }

  lemma {:induction false} AllDefinitionsAppend(ds: seq<Domain>, dom: Domain)
    ensures AllDefinitions(ds + [dom]) == AllDefinitions(ds) + dom.definitions
    decreases |ds|
  {
    if ds == [] {
      assert AllDefinitions([dom]) == dom.definitions + AllDefinitions([]);
      assert dom.definitions + [] == dom.definitions;
    } else {
      assert (ds + [dom])[1..] == ds[1..] + [dom];
      AllDefinitionsAppend(ds[1..], dom);
    }
  }

  /** The declarations, registry entries and smoke tests one domain's definitions contribute. */
  function DomainDecls(naming: Naming, defs: seq<Definition>): seq<Decl>
  {
    Map(Filter(defs, Emitted), Formatter(naming))
  }

  function DomainEntries(defs: seq<Definition>): seq<Entry>
  {
    Map(Filter(defs, Registered), EntryOf)
  }

  function DomainTests(defs: seq<Definition>): seq<TestStub>
  {
    Somes(Map(Filter(defs, Emitted), FormatTests))
  }

  /**
   Visiting one more definition: a skipped one adds nothing; any other adds
   its declaration, its smoke test if it has one, and its registry entry if
   it has an origin name.
   */
  lemma VisitDefinition(naming: Naming, defs: seq<Definition>, d: Definition)
    ensures DomainDecls(naming, defs + [d])
            == DomainDecls(naming, defs) + (if d.skip then [] else [FormatDefinition(naming, d)])
    ensures DomainEntries(defs + [d])
            == DomainEntries(defs) + (if d.skip || d.originName == "" then [] else [Entry(d.domain + "." + d.originName, d.name)])
    ensures DomainTests(defs + [d])
            == DomainTests(defs) + (if d.skip || FormatTests(d).None? then [] else [FormatTests(d).value])
  {
    var emitted := Filter(defs, Emitted);
    FilterAppend(defs, [d], Emitted);
    FilterAppend(defs, [d], Registered);
    MapAppend(emitted, Filter([d], Emitted), Formatter(naming));
    MapAppend(emitted, Filter([d], Emitted), FormatTests);
    SomesAppend(Map(emitted, FormatTests), Map(Filter([d], Emitted), FormatTests));
    MapAppend(Filter(defs, Registered), Filter([d], Registered), EntryOf);
  }

  /** Visiting one more domain extends the registry and the tests by that domain's share. */
  lemma VisitDomain(ds: seq<Domain>, dom: Domain)
    ensures Registry(ds + [dom]) == Registry(ds) + DomainEntries(dom.definitions)
    ensures TestUnit(ds + [dom]) == TestUnit(ds) + DomainTests(dom.definitions)
  {
    var defs := dom.definitions;
    var before := AllDefinitions(ds);
    AllDefinitionsAppend(ds, dom);
    FilterAppend(before, defs, Registered);
    FilterAppend(before, defs, Emitted);
    MapAppend(Filter(before, Registered), Filter(defs, Registered), EntryOf);
    MapAppend(Filter(before, Emitted), Filter(defs, Emitted), FormatTests);
    SomesAppend(Map(Filter(before, Emitted), FormatTests), Map(Filter(defs, Emitted), FormatTests));
  }

  /** The same step stated on a prefix of the domain list, as the main loop sees it. */
  lemma VisitPrefix(ds: seq<Domain>, i: nat)
    requires i < |ds|
    ensures Registry(ds[..i + 1]) == Registry(ds[..i]) + DomainEntries(ds[i].definitions)
    ensures TestUnit(ds[..i + 1]) == TestUnit(ds[..i]) + DomainTests(ds[i].definitions)
  {
    assert ds[..i + 1] == ds[..i] + [ds[i]];
    VisitDomain(ds[..i], ds[i]);
  }

  /** The inner loop of the main pass over one domain's definitions. */
  method EmitDomain(naming: Naming, defs: seq<Definition>)
    returns (decls: seq<Decl>, entries: seq<Entry>, tests: seq<TestStub>)
    ensures decls == DomainDecls(naming, defs)
    ensures entries == DomainEntries(defs)
    ensures tests == DomainTests(defs)
  {
    decls, entries, tests := [], [], [];
    var j := 0;
    while j < |defs|
      invariant 0 <= j <= |defs|
      invariant decls == DomainDecls(naming, defs[..j])
      invariant entries == DomainEntries(defs[..j])
      invariant tests == DomainTests(defs[..j])
    {
      var d := defs[j];
      assert defs[..j + 1] == defs[..j] + [d];
      VisitDefinition(naming, defs[..j], d);
      if !d.skip {
        decls := decls + [FormatDefinition(naming, d)];
        var stub := FormatTests(d);
        if stub.Some? {
          tests := tests + [stub.value];
        }
        if d.originName != "" {
          entries := entries + [Entry(d.domain + "." + d.originName, d.name)];
        }
      }
      j := j + 1;
    }
    assert defs[..j] == defs;
  }

  /**
   The main pass. Domains are visited in schema order and, inside each, the
   definitions in schema order; a skipped definition is passed over, every
   other one adds its declaration and its smoke test, and, when it has an
   origin name, its registry entry.
   */
  method Generate(schema: Schema, naming: Naming) returns (out: Output)
    ensures out.version == Version(schema.major, schema.minor)
    ensures |out.units| == |schema.domains|
    ensures forall i :: 0 <= i < |schema.domains| ==> out.units[i] == UnitOf(naming, schema.domains[i])
    ensures out.registry == Registry(schema.domains)
    ensures out.tests == TestUnit(schema.domains)
  {
    var ds := schema.domains;
    var registry: seq<Entry> := [];
    var tests: seq<TestStub> := [];
    var units: seq<DomainUnit> := [];
    var i := 0;
    while i < |ds|
      invariant 0 <= i <= |ds|
      invariant |units| == i
      invariant forall k :: 0 <= k < i ==> units[k] == UnitOf(naming, ds[k])
      invariant registry == Registry(ds[..i])
      invariant tests == TestUnit(ds[..i])
    {
      var dom := ds[i];
      var decls, entries, stubs := EmitDomain(naming, dom.definitions);
      VisitPrefix(ds, i);
      registry := registry + entries;
      tests := tests + stubs;
      var unit := DomainUnit(naming.snakeCase(dom.name), Header(dom), decls);
      assert unit == UnitOf(naming, dom);
      units := units + [unit];
      i := i + 1;
    }
    assert ds[..i] == ds;
    out := Output(Version(schema.major, schema.minor), registry, units, tests);
  }

  // ---------------------------------------------------------------------------
  // Registry, tests and skipping

  lemma {:induction false} AllDefinitionsMembers(ds: seq<Domain>)
    ensures forall d :: d in AllDefinitions(ds) <==> exists k :: 0 <= k < |ds| && d in ds[k].definitions
    decreases |ds|
  {
    if ds != [] {
      AllDefinitionsMembers(ds[1..]);
      forall d | d in AllDefinitions(ds)
        ensures exists k :: 0 <= k < |ds| && d in ds[k].definitions
      {
        if d !in ds[0].definitions {
          assert d in AllDefinitions(ds[1..]);
          var k :| 0 <= k < |ds[1..]| && d in ds[1..][k].definitions;
          assert d in ds[k + 1].definitions;
        }
      }
      forall d, k | 0 <= k < |ds| && d in ds[k].definitions
        ensures d in AllDefinitions(ds)
      {
        if k > 0 {
          assert d in ds[1..][k - 1].definitions;
        }
      }
    }
  }

  /**
   Registry contents: every non-skipped definition of any domain that has an
   origin name has the entry `"<domain>.<originName>" -> <name>`, and every
   entry is of that form for some such definition.
   */
  lemma RegistryContents(ds: seq<Domain>)
    ensures forall k, d :: 0 <= k < |ds| && d in ds[k].definitions && !d.skip && d.originName != "" ==>
              Entry(d.domain + "." + d.originName, d.name) in Registry(ds)
    ensures forall e :: e in Registry(ds) ==>
              exists k, d :: 0 <= k < |ds| && d in ds[k].definitions && !d.skip && d.originName != ""
                             && e == Entry(d.domain + "." + d.originName, d.name)
  {
    var all := AllDefinitions(ds);
    var regs := Filter(all, Registered);
    AllDefinitionsMembers(ds);
    FilterMembers(all, Registered);
    forall k, d | 0 <= k < |ds| && d in ds[k].definitions && !d.skip && d.originName != ""
      ensures Entry(d.domain + "." + d.originName, d.name) in Registry(ds)
    {
      assert d in regs;
      var i :| 0 <= i < |regs| && regs[i] == d;
      assert Registry(ds)[i] == EntryOf(d);
    }
    forall e | e in Registry(ds)
      ensures exists k, d :: 0 <= k < |ds| && d in ds[k].definitions && !d.skip && d.originName != ""
                             && e == Entry(d.domain + "." + d.originName, d.name)
    {
      var i :| 0 <= i < |Registry(ds)| && Registry(ds)[i] == e;
      var d := regs[i];
      assert d in regs;
      var k :| 0 <= k < |ds| && d in ds[k].definitions;
    }
  }

  /**
   When every definition of a domain points back at it, that domain's entries
   are keyed by the domain's own name and the definition's origin name.
   */
  lemma OwnedEntries(dom: Domain)
    requires OwnedBy(dom)
    ensures forall e :: e in DomainEntries(dom.definitions) ==>
              exists d :: d in dom.definitions && !d.skip && d.originName != ""
                          && e == Entry(dom.name + "." + d.originName, d.name)
  {
    var regs := Filter(dom.definitions, Registered);
    FilterMembers(dom.definitions, Registered);
    forall e | e in DomainEntries(dom.definitions)
      ensures exists d :: d in dom.definitions && !d.skip && d.originName != ""
                          && e == Entry(dom.name + "." + d.originName, d.name)
    {
      var i :| 0 <= i < |regs| && DomainEntries(dom.definitions)[i] == e;
      var d := regs[i];
      assert d in regs;
      var j :| 0 <= j < |dom.definitions| && dom.definitions[j] == d;
    }
  }

  /** When neither domain name holds a dot, a wire name splits back into domain and origin name. */
  lemma WireNameInjective(dom1: string, origin1: string, dom2: string, origin2: string)
    requires '.' !in dom1 && '.' !in dom2
    ensures dom1 + "." + origin1 == dom2 + "." + origin2 <==> dom1 == dom2 && origin1 == origin2
  {
    var w1 := dom1 + "." + origin1;
    var w2 := dom2 + "." + origin2;
    IndexOfConcat(dom1, '.', "." + origin1);
    IndexOfConcat(dom2, '.', "." + origin2);
    assert w1 == dom1 + ("." + origin1) && w2 == dom2 + ("." + origin2);
    assert dom1 == w1[..|dom1|] && dom2 == w2[..|dom2|];
    assert origin1 == w1[|dom1| + 1..] && origin2 == w2[|dom2| + 1..];
  }

  /** No two definitions share both domain and origin name. */
  predicate DistinctOrigins(defs: seq<Definition>)
  {
    forall i, j :: 0 <= i < j < |defs| ==>
      defs[i].domain != defs[j].domain || defs[i].originName != defs[j].originName
  }

  predicate DistinctKeys(r: seq<Entry>)
  {
    forall i, j :: 0 <= i < j < |r| ==> r[i].wireName != r[j].wireName
  }

  /**
   Registry keys are unique when domain names hold no dot and no two
   registered definitions share both domain and origin name.
   */
  lemma RegistryKeysDistinct(ds: seq<Domain>)
    requires forall d :: d in AllDefinitions(ds) ==> '.' !in d.domain
    requires DistinctOrigins(Filter(AllDefinitions(ds), Registered))
    ensures DistinctKeys(Registry(ds))
  {
    var all := AllDefinitions(ds);
    var regs := Filter(all, Registered);
    FilterMembers(all, Registered);
    var r := Registry(ds);
    forall i, j | 0 <= i < j < |r|
      ensures r[i].wireName != r[j].wireName
    {
      assert |r| == |regs|;
      assert regs[i] in regs && regs[j] in regs;
      assert regs[i] in all && regs[j] in all;
      assert r[i] == EntryOf(regs[i]) && r[j] == EntryOf(regs[j]);
      WireNameInjective(regs[i].domain, regs[i].originName, regs[j].domain, regs[j].originName);
    }
  }

  /**
   Smoke-test coverage: every non-skipped command with the command flag and
   every non-skipped event has its stub in the test unit, and every stub there
   belongs to such a definition.
   */
  lemma TestCoverage(ds: seq<Domain>)
    ensures forall k, d :: 0 <= k < |ds| && d in ds[k].definitions && !d.skip
                           && ((d.cdpType == Commands && d.command) || d.cdpType == Events) ==>
              FormatTests(d).Some? && FormatTests(d).value in TestUnit(ds)
    ensures forall t :: t in TestUnit(ds) ==>
              exists k, d :: 0 <= k < |ds| && d in ds[k].definitions && !d.skip && FormatTests(d) == Some(t)
  {
    var all := AllDefinitions(ds);
    var emitted := Filter(all, Emitted);
    var stubs := Map(emitted, FormatTests);
    AllDefinitionsMembers(ds);
    FilterMembers(all, Emitted);
    SomesMembers(stubs);
    forall k, d | 0 <= k < |ds| && d in ds[k].definitions && !d.skip
                  && ((d.cdpType == Commands && d.command) || d.cdpType == Events)
      ensures FormatTests(d).Some? && FormatTests(d).value in TestUnit(ds)
    {
      assert d in emitted;
      var i :| 0 <= i < |emitted| && emitted[i] == d;
      assert stubs[i] == FormatTests(d);
    }
    forall t | t in TestUnit(ds)
      ensures exists k, d :: 0 <= k < |ds| && d in ds[k].definitions && !d.skip && FormatTests(d) == Some(t)
    {
      var i :| 0 <= i < |stubs| && stubs[i] == Some(t);
      var d := emitted[i];
      assert d in emitted;
      var k :| 0 <= k < |ds| && d in ds[k].definitions;
    }
  }

  /**
   A skipped definition contributes nothing: removing it from a domain leaves
   the declarations, registry entries and smoke tests unchanged.
   */
  lemma SkippedContributeNothing(naming: Naming, before: seq<Definition>, d: Definition, after: seq<Definition>)
    requires d.skip
    ensures DomainDecls(naming, before + [d] + after) == DomainDecls(naming, before + after)
    ensures DomainEntries(before + [d] + after) == DomainEntries(before + after)
    ensures DomainTests(before + [d] + after) == DomainTests(before + after)
  {
    VisitDefinition(naming, before, d);
    var pre := before + [d];
    FilterAppend(pre, after, Emitted);
    FilterAppend(before, after, Emitted);
    FilterAppend(pre, after, Registered);
    FilterAppend(before, after, Registered);
    assert Filter(pre, Emitted) == Filter(before, Emitted) by {
      FilterAppend(before, [d], Emitted);
    }
    assert Filter(pre, Registered) == Filter(before, Registered) by {
      FilterAppend(before, [d], Registered);
    }
  }

  // ---------------------------------------------------------------------------
  // Version constant and domain header

  /** Position of the first `c` in `s`, or |s| when there is none. */
  function IndexOf(s: string, c: char): (k: nat)
    ensures k <= |s|
    ensures k < |s| ==> s[k] == c
    ensures forall i :: 0 <= i < k ==> s[i] != c
  {
    if s == [] then 0 else if s[0] == c then 0 else 1 + IndexOf(s[1..], c)
  }

  lemma IndexOfConcat(a: string, c: char, b: string)
    requires c !in a && |b| > 0 && b[0] == c
    ensures IndexOf(a + b, c) == |a|
  {
    assert (a + b)[|a|] == c;
    assert forall i :: 0 <= i < |a| ==> (a + b)[i] == a[i] && a[i] in a;
  }

  /** Splits a version constant back into its major and minor parts. */
  function ParseVersion(v: string): Option<(string, string)>
  {
    if |v| == 0 || v[0] != 'v' then None
    else
      var body := v[1..];
      var k := IndexOf(body, '.');
      if k == |body| then None else Some((body[..k], body[k + 1..]))
  }

  /** For any parts, the version constant is `v`, the major part, a dot and the minor part. */
  lemma VersionShape(major: string, minor: string)
    ensures var v := Version(major, minor);
            && |v| == |major| + |minor| + 2
            && v[0] == 'v' && v[1..|major| + 1] == major
            && v[|major| + 1] == '.' && v[|major| + 2..] == minor
  {
  }

  /** For a major part without a dot, the version constant gives both parts back. */
  lemma VersionRoundTrip(major: string, minor: string)
    requires '.' !in major
    ensures Version(major, minor)[0] == 'v'
    ensures ParseVersion(Version(major, minor)) == Some((major, minor))
  {
    var v := Version(major, minor);
    var body := v[1..];
    assert body == major + ("." + minor);
    IndexOfConcat(major, '.', "." + minor);
    assert body[..|major|] == major;
    assert body[|major| + 1..] == minor;
  }

  /** The rest of `t` after the prefix `p`, if `t` starts with it. */
  function StripPrefix(p: string, t: string): Option<string>
  {
    if |p| <= |t| && t[..|p|] == p then Some(t[|p|..]) else None
  }

  /** The part of `t` before the suffix `q`, if `t` ends with it. */
  function StripSuffix(t: string, q: string): Option<string>
  {
    if |q| <= |t| && t[|t| - |q|..] == q then Some(t[..|t| - |q|]) else None
  }

  lemma StripPrefixConcat(p: string, r: string)
    ensures StripPrefix(p, p + r) == Some(r)
  {
    assert (p + r)[..|p|] == p;
    assert (p + r)[|p|..] == r;
  }

  lemma StripSuffixConcat(r: string, q: string)
    ensures StripSuffix(r + q, q) == Some(r)
  {
    assert (r + q)[|r|..] == q;
    assert (r + q)[..|r|] == r;
  }

  /** Reads a domain header back into the domain's name and description. */
  function ParseHeader(t: string): Option<(string, string)>
  {
    match StripPrefix(HeaderOpen, t)
    case None => None
    case Some(body) =>
      var k := IndexOf(body, '\n');
      match StripPrefix(BlankLine, body[k..])
      case None => None
      case Some(tail) =>
        match ParseHeaderTail(tail)
        case None => None
        case Some(description) => Some((body[..k], description))
  }

  function ParseHeaderTail(tail: string): Option<string>
  {
    if tail == HeaderClose then Some("") else StripSuffix(tail, BlankLine + HeaderClose)
  }

  /** Splitting off a line-feed-free name at the first line feed. */
  lemma SplitName(name: string, rest: string)
    requires '\n' !in name
    ensures var body := name + BlankLine + rest;
            var k := IndexOf(body, '\n');
            body[..k] == name && body[k..] == BlankLine + rest
  {
    var body := name + BlankLine + rest;
    assert body == name + (BlankLine + rest);
    IndexOfConcat(name, '\n', BlankLine + rest);
  }

  /** Parsing a header whose name has no line feed stops after the name and the blank line. */
  lemma ParseHeaderSteps(name: string, tail: string)
    requires '\n' !in name
    ensures ParseHeader(HeaderOpen + (name + BlankLine + tail))
            == match ParseHeaderTail(tail)
               case None => None
               case Some(description) => Some((name, description))
  {
    var body := name + BlankLine + tail;
    StripPrefixConcat(HeaderOpen, body);
    SplitName(name, tail);
    StripPrefixConcat(BlankLine, tail);
  }

  lemma HeaderTailRoundTrip(description: string)
    ensures ParseHeaderTail(HeaderTail(description)) == Some(description)
  {
    var tail := HeaderTail(description);
    if description != "" {
      assert tail == description + (BlankLine + HeaderClose);
      assert |tail| > |HeaderClose|;
      StripSuffixConcat(description, BlankLine + HeaderClose);
    } else {
      assert tail == HeaderClose;
    }
  }

  /**
   For any domain, the header opens with the delimiter, the name and a blank
   line and ends with the closing delimiter; an empty description leaves only
   the name between the delimiters.
   */
  lemma HeaderShape(dom: Domain)
    ensures var h := Header(dom);
            && |h| >= |HeaderOpen| + |dom.name| + |BlankLine| + |HeaderClose|
            && h[..|HeaderOpen| + |dom.name| + |BlankLine|] == HeaderOpen + dom.name + BlankLine
            && h[|h| - |HeaderClose|..] == HeaderClose
    ensures dom.description == "" ==> Header(dom) == HeaderOpen + (dom.name + BlankLine + HeaderClose)
  {
    var h := Header(dom);
    var tail := HeaderTail(dom.description);
    assert h == (HeaderOpen + dom.name + BlankLine) + tail;
    if dom.description == "" {
      assert "" + HeaderClose == HeaderClose;
    } else {
      assert tail == (dom.description + BlankLine) + HeaderClose;
    }
  }

  /**
   The header holds the description exactly when it is non-empty: for a name
   without line feeds, name and description both read back unchanged.
   */
  lemma HeaderRoundTrip(dom: Domain)
    requires '\n' !in dom.name
    ensures ParseHeader(Header(dom)) == Some((dom.name, dom.description))
    ensures dom.description == "" ==> Header(dom) == HeaderOpen + (dom.name + BlankLine + HeaderClose)
  {
    ParseHeaderSteps(dom.name, HeaderTail(dom.description));
    HeaderTailRoundTrip(dom.description);
    if dom.description == "" {
      assert "" + HeaderClose == HeaderClose;
    }
  }
}
