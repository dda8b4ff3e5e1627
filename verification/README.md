# CDP code generator: rendering model

This project models the rendering half of go-rod's Chrome DevTools Protocol
code generator (`lib/proto/generate/main.go`). It takes the parsed protocol
schema (domains holding definitions) and decides what Go code to emit for it:

- **Doc comments** (`definition.comment`). The description, or `...` for the
  `<nil>` placeholder, is preceded by the `(deprecated) `, `(experimental) `
  and `(optional) ` markers and the symbolised name. Then `// ` goes in front
  of every line. This part is modelled exactly, as text (module `Comments`).
- **Declarations** (`definition.format`). A primitive becomes a type
  declaration with an optional enum const block. A struct becomes a struct
  declaration with its fields, the `ProtoReq`/`Call` pair for commands and
  the `ProtoEvent` accessor for events. Emitted Go code is represented
  structurally, as values of the `Decl`, `Field`, `EnumConst` and `Method`
  datatypes (module `Format`).
- **Smoke tests** (`definition.formatTests`). This decides which definitions
  get a test and which call shape the test uses (module `Format`).
- **The main pass** (the loop in `main`). It skips `skip` definitions. It
  collects one source unit per domain, each with its header block. It builds
  the registry of wire names `<domain>.<originName>`, the aggregate tests and
  the `v<major>.<minor>` version constant (module `Generator`).

Files:

- `proto.dfy` holds the schema datatypes.
- `comments.dfy`, `format.dfy` and `generator.dfy` hold the three parts above.
- `seqs.dfy` holds the order-preserving filter and map that the main pass is
  specified with.

The helpers `symbol`, `jsonTag` and `toSnakeCase` are defined outside
`main.go` and stay uninterpreted. They are fields of a `Naming` value, which
every operation that needs them takes as a parameter. Only
`Format.ConstNamesDistinct` assumes something about them: that `symbol` maps
distinct enum values to distinct names.

## Model

| member | source | states |
|---|---|---|
| Comments.RawCommentLayout | lib/proto/generate/main.go:96-113 | The unprefixed comment is the symbolised name, a space, then `(deprecated) `, `(experimental) ` and `(optional) ` in that fixed order, each present exactly when its flag is set, then `...` when the description is `<nil>` and the description verbatim otherwise. |
| Comments.FlagsDetermined | lib/proto/generate/main.go:103-113 | The markers compose without ambiguity. Two comments for the same name and description are equal only when all three flags agree. |
| Comments.PrefixEveryLine | lib/proto/generate/main.go:115 | Replacing multi-line `^` with `// ` keeps the number of lines and puts `// ` in front of every line, including the empty line after a trailing line feed. |
| Comments.UncommentPrefixLines | lib/proto/generate/main.go:115 | Prefixing loses nothing. Stripping the markers again gives back the unprefixed text. |
| Comments.LinesJoin | lib/proto/generate/main.go:115 | The line view used to state the prefixing is faithful. Joining the lines with line feeds gives back the text, and no line holds a line feed. |
| Comments.CommentShape | lib/proto/generate/main.go:96-116 | A definition's or property's doc comment has as many lines as its unprefixed comment. Each line is `// ` plus the matching unprefixed line, and uncommenting it gives the unprefixed comment back. |
| Format.EnumConsts | lib/proto/generate/main.go:126-136 | The const block has one constant per enum value, in enum order. Each is named type name + symbol(value), has the declared type, and carries the value verbatim. |
| Format.PrimitiveShape | lib/proto/generate/main.go:119-136 | A primitive becomes a type declaration with its comment, name and resolved type. The const block is there exactly when the enum is; an empty enum gives an empty block. The values read back off the block are the enum verbatim. |
| Format.EnumValuesKept | lib/proto/generate/main.go:128-133 | The literal values of the const block, read in order, are exactly the enum values. |
| Format.ConstNamesDistinct | lib/proto/generate/main.go:128-133 | Constant names are pairwise distinct when the enum values are, provided `symbol` keeps distinct values apart. |
| Format.Fields | lib/proto/generate/main.go:144-151 | One field per property, in property order. Each field has the property's comment, name and type, and the tag `jsonTag(originName, optional)`. |
| Format.StructShape | lib/proto/generate/main.go:138-153 | A struct becomes a struct declaration with its comment and name, and its fields are the properties' fields in order. |
| Format.Bindings | lib/proto/generate/main.go:118-192 | A command struct gets exactly one `ProtoReq`, returning `<domain>.<originName>`, and exactly one `Call`. That `Call` returns `(*<name>Result, error)` and passes `&res` when the command has a return value; otherwise it returns `error` and passes nil. `ProtoEvent` returning the wire name exists exactly for event structs. Primitives get no methods. |
| Format.TestSelection | lib/proto/generate/main.go:194-228 | A stub is emitted exactly for (commands with the command flag) or events. A command stub discards a result exactly when the command has a return value. Every other definition yields none. |
| Format.TestsExerciseBindings | lib/proto/generate/main.go:155-228 | For a struct, each stub calls a binding its declaration has, in the matching shape. A stub that discards a result calls a two-result `Call`, and an event stub calls the single `ProtoEvent`. |
| Generator.VisitDefinition | lib/proto/generate/main.go:58-72 | Visiting one more definition adds nothing if it is skipped. Otherwise it adds its declaration, its stub if it has one, and, for a non-empty origin name, the entry `<domain>.<originName> -> <name>`. |
| Generator.EmitDomain | lib/proto/generate/main.go:58-73 | The inner loop yields the declarations, registry entries and stubs of the non-skipped definitions, in schema order. |
| Generator.VisitDomain | lib/proto/generate/main.go:40-79 | Visiting one more domain extends the registry and the tests by exactly that domain's share. |
| Generator.Generate | lib/proto/generate/main.go:11-86 | The whole pass produces the version `v<major>.<minor>` and one unit per domain in order, each with its snake-case file stem, header and the declarations of its non-skipped definitions. It also produces, in traversal order, the registry entries of the non-skipped definitions that have an origin name, and the tests of the non-skipped definitions. |
| Generator.RegistryContents | lib/proto/generate/main.go:58-72 | Every non-skipped definition with an origin name has its entry `<domain>.<originName> -> <name>` in the registry, and every registry entry comes from such a definition. |
| Generator.OwnedEntries | lib/proto/generate/main.go:66-71 | When a domain's definitions point back at it, its entries are keyed with the domain's own name. |
| Generator.WireNameInjective | lib/proto/generate/main.go:69 | For domain names without a dot, two wire names are equal exactly when domain and origin name both are. |
| Generator.RegistryKeysDistinct | lib/proto/generate/main.go:66-72 | The registry has no duplicate key when no domain name holds a dot and no two registered definitions share domain and origin name. Without the first premise keys can clash: domain `a.b` with origin `c` and domain `a` with origin `b.c` both give `a.b.c`. |
| Generator.TestCoverage | lib/proto/generate/main.go:58-64 | Every non-skipped command with the command flag, and every non-skipped event, has its stub in the test unit. Every stub there belongs to a non-skipped definition. |
| Generator.SkippedContributeNothing | lib/proto/generate/main.go:59-61 | Removing a skipped definition changes no declaration, registry entry or test. |
| Generator.VersionShape | lib/proto/generate/main.go:26-29 | For any parts, the version constant is `v`, then the major part, a dot and the minor part. |
| Generator.VersionRoundTrip | lib/proto/generate/main.go:26-29 | For a major part without a dot, the version constant splits back into major and minor. |
| Generator.HeaderShape | lib/proto/generate/main.go:51-56 | For any domain, the header opens with the delimiter, the name and a blank line, and ends with the closing delimiter. An empty description leaves only the name between the delimiters. |
| Generator.HeaderRoundTrip | lib/proto/generate/main.go:51-56 | For a name without line feeds, the header reads back into the name and the description, so the description is there exactly when it is non-empty. |

## Left out

- Reading the schema and the parser (`getSchema`, `parse`): the model takes the domains and definitions as already built. So it does not cover how inline object types become definitions, how references are resolved, or how `name` is derived.
- The internals of `symbol`, `jsonTag`, `toSnakeCase` and the whitespace handling of `utils.S` templates: these helpers are not part of this model and stay uninterpreted (`Naming`). Emitted Go code is a structured value, not template text. The domain header, the doc comments and the version constant are the exceptions, and they are modelled as exact text.
- File output (`utils.OutputFile`, `filepath.FromSlash`), error aborts (`utils.E`) and the `gofmt`/`golangci-lint` runs (`utils.Exec`): I/O and external processes. A unit's `file` field holds only the snake-case stem of its path.
- The fixed preambles (the "generated by" marker, package clauses and imports, the closing brace of the registry map): constant text with no decision in it.
- Name collisions and duplicate enum constants: nothing in this code detects them, so no abort is modelled. `ConstNamesDistinct` and `RegistryKeysDistinct` state what uniqueness needs instead.
- Format.TestsExerciseBindings: stated for struct definitions only. For a primitive, `formatTests` still emits a stub when the primitive is a command or an event, but `format` emits no binding for it. Whether the parser can produce such a definition is outside this model.
