# sqlc parameter pipeline in Dafny

A model of the two steps sqlc uses to turn the placeholders of a SQL query
into typed, named parameters for the generated code:

- **Named-parameter normalisation** (`rewrite.NamedParameters`). A statement
  may write a named placeholder three ways: `sqlc.arg(name)`, `@name::type`
  or `@name`. The normaliser walks the statement depth-first and replaces
  every such occurrence by a positional `$n` placeholder (`ParamRef`). A
  sign-cast keeps its cast around the placeholder. Distinct names get the
  ordinals 1, 2, … in the order they first occur, and a repeated name reuses
  its ordinal. For every occurrence, a textual edit (`source.Edit`) is
  logged, relative to the start of the statement. The ordinal → name map is
  returned with the rewritten statement. A statement without named forms is
  returned unchanged, with an empty map and no edits.
- **Catalog resolution** (`compiler.resolveCatalogRefs`). For every
  placeholder occurrence, the resolver works out the parameter from the
  placeholder's syntactic parent:
  - LIMIT and OFFSET give integers;
  - a column comparison (`A_Expr`) takes the column's type from the tables
    in scope;
  - a function argument takes the catalogued argument type, with `any` for
    unknown functions;
  - an insert target (`ResTarget`) takes the target column's type;
  - a cast takes the cast type.

  The tables in scope come from the statement's range variables. An
  explicit name for a placeholder number always wins. The first error stops
  the resolver.

Modules:

| module | file | models |
|---|---|---|
| `Wrappers` | wrappers.dfy | `Option` and `Result` |
| `Ast` | ast.dfy | the statement nodes the pipeline inspects; `astutils.Walk` and `astutils.Search` |
| `Format` | format.dfy | the `%d` verb used for `$n` |
| `Catalog` | catalog.dfy | the two catalog lookups: `GetTable` and `GetFuncN` |
| `Rewrite` | rewrite.dfy | `internal/sql/rewrite/parameters.go`, plus a reference semantics and the proof that the traversal meets it |
| `RewriteProperties` | rewrite_props.dfy | properties of `NamedParameters`, and worked examples |
| `Compiler` | resolve.dfy | `internal/compiler/resolve.go` |
| `ResolveProperties` | resolve_props.dfy | properties of the resolver, and worked examples |

The reference semantics of the normaliser has these parts:
- `Matches(n)` lists the occurrences in traversal order. A matched node is
  not descended into.
- `Dedup(Names(...))` lists the distinct names in order of first occurrence.
  - `Ordinal(d, x)` is one plus the position of `x` in that list.
  - `OrdinalNames(d)` maps each ordinal to its name.
- `EditsFor` gives the edit each occurrence is owed.

- `Substituted(n, d)` is the statement the rewrite should produce. Each
  occurrence becomes the placeholder of its name's ordinal in `d`, a
  sign-cast keeping its cast. Every other node is rebuilt around its
  substituted children.

`RewriteTracks` and `RewriteShape` prove, by induction over the tree, that
the mutable-state traversal (`RewriteNode` with a `State`) produces exactly
these results.

Points where the code's behaviour is easy to misread; the model follows the code:
- When a function argument is a named argument (`f(label => $1)`), the
  parameter's default name is:
  - the catalogued argument name, if the catalog gives one;
  - otherwise the label;
  - otherwise the function's name.

  The catalogued name comes first because of resolve.go:224-227; see
  `CatalogNameBeatsLabel`.
- In the A_Expr case, after each matching table, the lookup key is replaced
  by the occurrence's explicit name (resolve.go:140-142). Later tables are
  therefore searched under the explicit name. `RenameMasksAmbiguity` shows
  the effect: an otherwise ambiguous column resolves to its first table.
- A `ResTarget` reads the default table before it looks at the occurrence's
  own range variable (resolve.go:245-247). A statement without tables
  therefore panics even when the occurrence names its table; see
  `ResTargetNeedsDefaultTable`.

The two Go panics (a column name of more than two parts, and a nil default
table) are modelled as the error variants `PanicFieldCount` and
`PanicNilDefaultTable`, so every function is total.

Inputs that the model takes as parameters:
- `named.IsParamFunc` and `named.IsParamSign` are not part of this model.
  They are defined here as:
  - a call of `sqlc.arg`;
  - an `A_Expr` whose operator name, joined by `.`, is `@`.
- The compiler helpers `parseTableName` and `toColumn` are not part of this
  model. They enter as uninterpreted functions in `Compiler.Externals`.
  `parseTableName` returns `None` for its error.
- The catalog is a value with two maps. `GetTable` and `GetFuncN` answer
  from those maps.

## Model

| member | source | states |
|---|---|---|
| Rewrite.Flatten | internal/sql/rewrite/parameters.go:14-33 | the flattened text is the concatenation of every `String` fragment under the node in walk order, and the flag is set exactly when an `A_Const` occurs under it |
| Rewrite.FlattenQuotedArg | internal/sql/rewrite/parameters.go:58-80 | `sqlc.arg('name')` flattens to the bare name, flagged as a constant, so its edit is written with quotes |
| Rewrite.FlattenIdentifierArg | internal/sql/rewrite/parameters.go:58-80 | `sqlc.arg(name)` flattens to the name without the constant flag, so its edit is written without quotes |
| Rewrite.MatchAt | internal/sql/rewrite/parameters.go:35-117 | a node is rewritten exactly when it is a `sqlc.arg` call or an `@` expression; only a cast-wrapped `@` is taken as the sign-cast form; the match sits at the node's location; the name is the text of the `String` nodes the walk meets under the call's arguments, the cast's operand or the `@` operand, in that order; the `sqlc.arg` form counts as quoted exactly when a constant is among its arguments |
| Rewrite.Record | internal/sql/rewrite/parameters.go:61-73 | a known name keeps its ordinal and leaves the numbering untouched; a new name gets the next ordinal in both maps; either way exactly one edit for the occurrence is appended, carrying that ordinal |
| Rewrite.Replacement | internal/sql/rewrite/parameters.go:88-106 | a matched node becomes a placeholder, or for the sign-cast form a cast whose argument is the placeholder |
| Rewrite.RewriteNode | internal/sql/rewrite/parameters.go:54-142 | the traversal logs one edit per occurrence it handles and never hands out a smaller ordinal count |
| Rewrite.RewriteTracks | internal/sql/rewrite/parameters.go:54-142 | rewriting a subtree numbers the distinct names by first occurrence, appends exactly the edits owed to its occurrences, and leaves no occurrence in the result |
| Rewrite.RewriteShape | internal/sql/rewrite/parameters.go:54-142 | the rewritten subtree is the reference substitution: each occurrence becomes the placeholder of its name's ordinal, and every other node keeps its kind, fields and location around rewritten children |
| Rewrite.RewriteShapeSeq | internal/sql/rewrite/parameters.go:54-142 | a list of children is rewritten element by element into the reference substitution of each, threading the numbering left to right |
| Rewrite.SubstitutedStable | internal/sql/rewrite/parameters.go:61-73 | names that get ordinals later do not change the placeholder already written for an earlier occurrence |
| Rewrite.SubstitutedNothing | internal/sql/rewrite/parameters.go:54-142 | a subtree without occurrences is rebuilt unchanged |
| Rewrite.NamedParameters | internal/sql/rewrite/parameters.go:44-149 | the returned map numbers the distinct names in order of first occurrence; the edits are the ones owed to the occurrences in traversal order; the returned statement is the reference substitution of the input, so each occurrence becomes the placeholder of its name's ordinal and nothing else changes; no named form survives; the statement location is kept; a statement without named forms comes back unchanged with an empty map and no edits |
| Rewrite.NoNamedFormsIffNoMatches | internal/sql/rewrite/parameters.go:45-49 | the early exit fires exactly when the traversal would find no occurrence, so taking it changes no result |
| Rewrite.Invert | internal/sql/rewrite/parameters.go:144-147 | the inverse of an injective name → ordinal map has the ordinals as keys and maps each back to its name |
| Rewrite.NamedInvertsArgs | internal/sql/rewrite/parameters.go:144-147 | the name → ordinal map is injective, and the ordinal → name map kept during the traversal is its inverse |
| Rewrite.DedupOrderAt | internal/sql/rewrite/parameters.go:66-73 | the distinct names are listed in order of first occurrence |
| Rewrite.DedupMembers | internal/sql/rewrite/parameters.go:61-68 | every name used gets an ordinal, and only names used do |
| Rewrite.RewriteSeqTracks | internal/sql/rewrite/parameters.go:54-142 | rewriting a list of children left to right handles their occurrences in order, threading the numbering through |
| Rewrite.MatchesEmptyIff | internal/sql/rewrite/parameters.go:45-49 | the traversal finds no occurrence exactly when no node of the walk is a named form |
| RewriteProperties.NamedParametersOrdinals | internal/sql/rewrite/parameters.go:144-148 | the returned map has keys exactly 1..k for k distinct names, its values are exactly the names used, no two ordinals share a name, and a smaller ordinal belongs to a name that first occurs earlier |
| RewriteProperties.NamedParametersEdit | internal/sql/rewrite/parameters.go:74-85 | the i-th edit belongs to the i-th occurrence: it is placed at the occurrence's offset from the statement start, replaces the occurrence's text and writes `$k` for the ordinal k the map gives its name |
| RewriteProperties.SamePlaceholderIffSameName | internal/sql/rewrite/parameters.go:61-73 | two occurrences are replaced by the same `$n` exactly when they use the same name |
| RewriteProperties.NamedParametersIdempotent | internal/sql/rewrite/parameters.go:45-49 | normalising a normalised statement returns it unchanged, with an empty map and no edits |
| RewriteProperties.MatchedNodeReplaced | internal/sql/rewrite/parameters.go:86-113 | a matched node is replaced as a whole and its subtree is not visited: exactly one edit is appended, and the node becomes the placeholder, kept inside the original cast for the sign-cast form |
| RewriteProperties.NamedFormNames | internal/sql/rewrite/parameters.go:58-127 | `sqlc.arg(x)`, `sqlc.arg('x')` and `@x` each take the name `x`; only the quoted call is flagged quoted; the edit's old text is `sqlc.arg(x)`, `sqlc.arg('x')` or `@x` as written |
| RewriteProperties.SignCastPrecedesSign | internal/sql/rewrite/parameters.go:88-115 | a cast-wrapped `@x` is always the sign-cast form, never the plain sign form, and its edit replaces `@x` without the cast |
| RewriteProperties.SignCastRewrite | internal/sql/rewrite/parameters.go:88-113 | `@x::t` becomes `$n::t`, with x's existing ordinal or the next one, and logs the edit `@x` → `$n` |
| RewriteProperties.TwiceMatches | internal/sql/rewrite/parameters.go:54-142 | a statement using `@x::t` twice has two sign-cast occurrences of `x`, in order |
| RewriteProperties.RepeatedNameSharesOrdinal | internal/sql/rewrite/parameters.go:88-113 | a name used twice is numbered once: both occurrences become `$1`, the map is {1: x}, and both casts survive |
| Format.ParseDecimalOfDecimal | internal/sql/rewrite/parameters.go:84 | the decimal text written for an ordinal reads back as that ordinal |
| Format.DecimalInjective | internal/sql/rewrite/parameters.go:84 | distinct ordinals are written as distinct decimal texts |
| Catalog.GetTable | internal/compiler/resolve.go:55-58 | a table's lookup succeeds exactly when the catalog declares the table |
| Catalog.GetFuncN | internal/compiler/resolve.go:173 | a function lookup succeeds exactly when the catalog declares that name with that many arguments |
| Compiler.DataTypeInjective | internal/compiler/resolve.go:14-20 | for names without dots, two type names are spelled alike only when they are equal |
| Compiler.Relations | internal/compiler/resolve.go:35-38 | exactly the range variables that name a relation are kept |
| Compiler.RelationsCounts | internal/compiler/resolve.go:35-43 | a relation-naming range variable listed twice is kept twice; the others are dropped |
| Compiler.CollectTables | internal/compiler/resolve.go:35-51 | the tables are those of the relation-naming range variables in order, the first of them is the default table, and collecting fails exactly when one of them cannot be parsed |
| ResolveProperties.NoRelations | internal/compiler/resolve.go:35-38 | range variables that name no relation contribute no table |
| ResolveProperties.AliasLastBindingWins | internal/compiler/resolve.go:47-50 | an alias names the table of the last range variable that binds it |
| ResolveProperties.AliasKeys | internal/compiler/resolve.go:47-50 | the aliases bound are exactly those of the relation-naming range variables |
| Compiler.ColumnMap | internal/compiler/resolve.go:63-66 | every column of the table is reachable by its name, and every entry is one of the table's columns under its own name |
| Compiler.ColumnMapLastWins | internal/compiler/resolve.go:63-66 | of two columns with one name, the later one is kept |
| Compiler.BuildTypeMap | internal/compiler/resolve.go:53-67 | the type map covers exactly the tables in scope that the catalog knows, each with its columns by name |
| ResolveProperties.TypeMapColumn | internal/compiler/resolve.go:53-67 | a catalog column whose name is not declared again later in its table is what the type map returns for that table and name |
| ResolveProperties.TypeMapAgreesWithCatalog | internal/compiler/resolve.go:53-67 | a table and column name are found in the type map exactly when the table is in scope and the catalog declares a column of that name there; the column found is such a column |
| Compiler.Lookup | internal/compiler/resolve.go:138 | the nested lookup succeeds exactly when both the table and the column are present |
| Compiler.LastNamed | internal/compiler/resolve.go:128-132 | finds the last table of the given unqualified name, and reports none exactly when no table has that name |
| ResolveProperties.QualifierResolution | internal/compiler/resolve.go:123-134 | an unqualified reference searches every table; a qualifier that is an alias searches that alias's table; otherwise it searches the last table of that name, or every table when none has the name |
| Compiler.Holding | internal/compiler/resolve.go:137-138 | the searched tables that have the column are exactly those with a type-map entry for it |
| Compiler.HoldingCounts | internal/compiler/resolve.go:136-139 | a table searched twice that has the column counts twice, as the loop's counter does |
| Compiler.MatchColumns | internal/compiler/resolve.go:136-154 | the table loop finds nothing exactly when no searched table has the column; without an explicit name, or with one equal to the column, it emits one parameter per table holding the column, in order, typed from that table's column |
| ResolveProperties.MatchColumnsConcat | internal/compiler/resolve.go:136-154 | the loop over two runs of tables is the loop over the first run followed by the loop over the second, started with the key the first run ended with |
| ResolveProperties.MatchColumnsRenamed | internal/compiler/resolve.go:136-154 | with an explicit name, the first table holding the column gives a parameter under that name, and every later table is searched for the explicit name instead |
| ResolveProperties.RenamedSearch | internal/compiler/resolve.go:140-142 | after the first match, the key becomes the explicit name, and a later table lacking that name is not counted |
| Compiler.FirstColumnRef | internal/compiler/resolve.go:96-107 | the first column reference under the left operand is absent exactly when the walk finds none, and otherwise is a column reference of that walk |
| Compiler.FirstColumnRefIsFirst | internal/compiler/resolve.go:96-109 | the column reference taken is the one a front-to-back scan of the walk finds first (`Ast.FirstColumnRefOf`): there is none exactly when no node of the walk is a column reference, and otherwise no column reference precedes it in the walk |
| Compiler.ResolveAExpr | internal/compiler/resolve.go:93-170 | a left operand without a column reference is an error at the expression; a success is one parameter with the occurrence's number that honours explicit names |
| ResolveProperties.AExprPanic | internal/compiler/resolve.go:111-121 | a column name of other than one or two parts panics |
| ResolveProperties.AExprNotFound | internal/compiler/resolve.go:156-162 | when no searched table has the column, the column is reported missing at the column reference |
| ResolveProperties.AExprUnique | internal/compiler/resolve.go:136-169 | without an explicit name, exactly one table holding the column gives one parameter typed and tabled from that column |
| ResolveProperties.AExprAmbiguous | internal/compiler/resolve.go:163-169 | without an explicit name, several tables holding the column make the reference ambiguous |
| ResolveProperties.AExprNamed | internal/compiler/resolve.go:136-169 | with an explicit name, the first searched table holding the column gives the parameter, named by the explicit name and typed from that column; the reference is ambiguous exactly when a later searched table has a column of the explicit name |
| ResolveProperties.DuplicateTableAmbiguous | internal/compiler/resolve.go:136-169 | `id` with `users` in scope twice is ambiguous, because each listing of the table counts |
| ResolveProperties.AmbiguousAcrossTables | internal/compiler/resolve.go:163-169 | an unqualified `id` present in both `users` and `orders` is ambiguous |
| ResolveProperties.RenameMasksAmbiguity | internal/compiler/resolve.go:136-169 | the same `id` resolves to `users` once the occurrence carries an explicit name |
| Compiler.CallTarget | internal/compiler/resolve.go:173-188 | a catalogued function is used as declared; an unknown one keeps the call's name, returns `any`, and takes one unnamed `any` argument per call argument (a nil list for none) |
| Compiler.ArgumentParameter | internal/compiler/resolve.go:190-235 | a declared argument gives a non-null, non-array parameter of its declared type without a table, named by the explicit name, else the declared argument name, else the named argument's label, else the function's name |
| Compiler.UntypedParameter | internal/compiler/resolve.go:190-217 | with a nil argument list, an argument gives a nullable `any` parameter, named by the explicit name, else the named argument's label, else the function's name |
| Compiler.SelectedFrom | internal/compiler/resolve.go:189-207 | lists, in increasing order, every argument index from the start index on, except those of a placeholder of another number and of a named argument that does not hold a placeholder of this number |
| Compiler.ArgumentParametersContent | internal/compiler/resolve.go:189-236 | on success the k-th parameter is the one the k-th selected argument gives: untyped for a nil argument list, else from the declared argument at the same index |
| Compiler.ArgumentParameters | internal/compiler/resolve.go:189-236 | the argument loop fails exactly when a selected argument lies beyond the declared arguments; otherwise it gives one parameter per selected argument, numbered as the occurrence and honouring explicit names |
| Compiler.ResolveFuncCall | internal/compiler/resolve.go:172-236 | the call case fails, naming the function, exactly when a selected argument lies beyond the declared arguments of the target function; otherwise the k-th parameter is the one the k-th selected argument gives |
| ResolveProperties.UniformArguments | internal/compiler/resolve.go:175-187 | when every declared argument is an unnamed `any`, every selected argument gives a non-null, non-array `any` parameter without a table |
| ResolveProperties.UnknownFunction | internal/compiler/resolve.go:173-188 | a call of a function the catalog does not know never fails, and every parameter is a non-null `any` |
| ResolveProperties.NilArgumentList | internal/compiler/resolve.go:209-218 | a catalogued function with a nil argument list gives a nullable `any` parameter for every selected argument |
| ResolveProperties.CatalogNameBeatsLabel | internal/compiler/resolve.go:223-227 | `f(b => $1)` for a catalogued `f(a int4)` gives a parameter named `a`, not `b` |
| ResolveProperties.OtherArgumentsNotSkipped | internal/compiler/resolve.go:191-207 | an argument that is neither a placeholder nor a named argument also gives a parameter |
| Compiler.ResolveResTarget | internal/compiler/resolve.go:238-272 | an insert target without a name is an error; with no default table it panics; when the occurrence names a table that does not parse, the parse error is returned; a success is one parameter numbered as the occurrence |
| ResolveProperties.ResTargetAgainstCatalog | internal/compiler/resolve.go:242-272 | an insert target resolves exactly when its table is in scope and the catalog declares the column there; the parameter then carries that column's type, nullability and array-ness and names the table; otherwise the column is reported missing |
| ResolveProperties.ResTargetNeedsDefaultTable | internal/compiler/resolve.go:244-247 | with no table in scope an insert target panics, even when the occurrence names its own table |
| Compiler.ResolveTypeCast | internal/compiler/resolve.go:274-283 | a cast fails exactly when it has no type name; otherwise it gives one parameter numbered as the occurrence, whose column is the one `toColumn` gives for the type name except that an explicit name replaces the column name |
| Compiler.ResolveRef | internal/compiler/resolve.go:70-290 | every parameter an occurrence gives carries its number and honours the explicit names |
| ResolveProperties.LimitAndOffset | internal/compiler/resolve.go:73-91 | LIMIT and OFFSET placeholders are non-null integers named `limit` and `offset` unless named explicitly |
| ResolveProperties.OtherParents | internal/compiler/resolve.go:285-290 | a placeholder directly under a placeholder gives an untyped parameter; any other parent gives nothing |
| Compiler.ResolveAll | internal/compiler/resolve.go:69-292 | the loop succeeds exactly when every occurrence resolves; otherwise it returns the error of the first occurrence that fails; every parameter belongs to one of the occurrences |
| Compiler.ResolveAllValue | internal/compiler/resolve.go:69-292 | on success the loop returns the parameters of each occurrence, one occurrence after another in order |
| Compiler.ContextFor | internal/compiler/resolve.go:53-67 | the type map consulted covers exactly the tables in scope that the catalog knows |
| Compiler.ResolveCatalogRefs | internal/compiler/resolve.go:22-293 | an unparsable table name fails the whole call; otherwise the call succeeds exactly when every occurrence resolves, and fails with the error of the first occurrence that does not; a success is the concatenation, in occurrence order, of what each occurrence gives |
| ResolveProperties.ResolvedParameters | internal/compiler/resolve.go:69-292 | every parameter returned carries the number of one of the occurrences, and the explicit name where one is given; every parameter any occurrence gives is returned |

## Left out

- The catalog component of table and function names is not modelled: names are schema and name only.
- `A_Star` fields of a column reference are not modelled, so `stringSlice` is the identity on the modelled fields.
- The walk skips the type name of a cast and the name list of a function call. `astutils.Walk` visits both, and both hold `String` nodes. So a placeholder's name can differ from the source's: in `sqlc.arg(x::text)` the source's text also takes the cast's type name, and in `sqlc.arg(f(x))` it also takes the function's name. Placeholders themselves are unaffected, because neither list can hold one.
- The diagnostic `fmt.Printf` for an unsupported parent is not modelled; that parent contributes no parameter.
- Error messages and SQLSTATE codes are not modelled. Each error is a variant of `Compiler.ResolveError` that carries the column name and location reported.
- A function call whose `Args` list is nil is not modelled; the argument list is always a sequence. The Go code would dereference nil there.
- Go map iteration order is not modelled. The inverse map at parameters.go:144-147 does not depend on it, because the name → ordinal map is injective (`NamedInvertsArgs`).
- `NamedParameters` builds the ordinal → name map while it traverses, not in a final pass over the name → ordinal map. `NamedInvertsArgs` proves that both give the same map.
- The edits' assumption that each occurrence sits on one line is not modelled. Edits are values, and applying them to the query text is not part of this model.
- `named.IsParamFunc`, `named.IsParamSign`, `parseTableName`, `toColumn` and the catalog package are not part of this model. They enter as the definitions and parameters described above.
- Compiler.ResolveRef: its own contract states numbering and naming only. It hands each parent kind to one case function, whose contract and lemmas above state the outcome: `ResolveAExpr` with `AExprPanic`, `AExprNotFound`, `AExprUnique`, `AExprAmbiguous` and `AExprNamed`; `ResolveFuncCall`; `ResolveResTarget` with `ResTargetAgainstCatalog`; `ResolveTypeCast`; `LimitAndOffset`; `OtherParents`.
- Compiler.ResolveAll: its own contract states success, the first error and the numbering; the value returned on success is stated by `ResolveAllValue`, a separate lemma that keeps each proof small, and `ResolveCatalogRefs` states it in its own contract.
- Rewrite.RewriteNode: its own contract states counts only. The rewritten tree and the final state are stated by `RewriteShape` and `RewriteTracks`.
- The node set covers the children that the rewrite and the resolver visit. A function call's aggregate `ORDER BY`, `FILTER` and `OVER` clauses and an insert target's indirection are not modelled. So placeholders there are not modelled, and neither are column references there. The source's search for the first column reference (resolve.go:96-107) and `flatten` would meet those column references and `String` nodes, so on such input its first column reference or placeholder name can differ from the model's.
