/**
 * `resolveCatalogRefs` (internal/compiler/resolve.go): for every placeholder
 * occurrence of a statement, work out the parameter's name, SQL type,
 * nullability, array-ness and source table from its syntactic parent and
 * the schema catalog.
 *
 * The two helpers of the compiler package that the resolver calls but that
 * are not part of this model, `parseTableName` and `toColumn`, are taken as
 * uninterpreted functions (`Externals`). Go panics are modelled as explicit
 * `Panic…` error variants so that the model is total.
 */
module Compiler {
  import opened Wrappers
  import opened Ast
  import Catalog

  type TableName = Catalog.TableName

  /** `compiler.Column`: what the code generator learns about one parameter. */
  datatype Column = Column(name: string, dataType: string, notNull: bool, isArray: bool, table: Option<TableName>)

  /** `compiler.Parameter`; `column` is `None` for a nil column pointer. */
  datatype Parameter = Parameter(number: int, column: Option<Column>)

  /** `pg.RangeVar`: a table reference of the statement, with optional alias. */
  datatype RangeVar = RangeVar(catalogname: Option<string>, schemaname: Option<string>, relname: Option<string>, alias: Option<string>)

  /** The syntactic parent of a placeholder: LIMIT, OFFSET, or an AST node. */
  datatype Parent = LimitOffset | LimitCount | ParentNode(node: Node)

  /**
   * `paramRef`: one placeholder occurrence with its parent, the range
   * variable attached to it, its number, and an explicit name ("" for none).
   */
  datatype Occurrence = Occurrence(parent: Parent, rv: Option<RangeVar>, number: int, name: string)

  /** The compiler helpers the resolver calls; `parseTableName` returns `None` for its error. */
  datatype Externals = Externals(parseTableName: RangeVar -> Option<TableName>, toColumn: TypeName -> Column)

  /** Every way `resolveCatalogRefs` stops early: a returned error or a panic. */
  datatype ResolveError =
    | NoColumnReference(location: int)
    | ColumnNotFound(column: string, location: int)
    | AmbiguousColumn(column: string, location: int)
    | WrongArgumentCount(funcName: string)
    | ResTargetWithoutName
    | TypeCastWithoutTypeName
    | BadTableName
    | PanicFieldCount(count: nat)
    | PanicNilDefaultTable

  /** The tables in scope: all of them in order, the first one, and the alias bindings. */
  datatype Scope = Scope(tables: seq<TableName>, defaultTable: Option<TableName>, aliasMap: map<string, TableName>)

  /** The nested `typeMap[schema][name][column]` of the source, keyed by the pair. */
  type TypeMap = map<TableName, map<string, Catalog.Column>>

  /** Everything a single occurrence is resolved against. */
  datatype Context = Context(catalog: Catalog.Catalog, ext: Externals, scope: Scope, typeMap: TypeMap, names: map<int, string>)

  /** `dataType`: the type name as the generator spells it, schema-qualified when a schema is given. */
  function DataType(t: TypeName): string
  {
    if t.schema != "" then t.schema + "." + t.name else t.name
  }

  lemma ShorterSchema(a: TypeName, b: TypeName)
    requires '.' !in b.schema
    requires a.schema != "" && |a.schema| < |b.schema|
    ensures DataType(a) != DataType(b)
  {
    var i := |a.schema|;
    assert DataType(a)[i] == '.';
    assert DataType(b)[i] == b.schema[i];
    assert b.schema[i] in b.schema;
  }

  /** For names without dots, the spelled type determines the type name: no two such types share a spelling. */
  lemma DataTypeInjective(a: TypeName, b: TypeName)
    requires '.' !in a.schema && '.' !in a.name && '.' !in b.schema && '.' !in b.name
    requires DataType(a) == DataType(b)
    ensures a == b
  {
    var s := DataType(a);
    if a.schema != "" && b.schema != "" {
      if |a.schema| < |b.schema| {
        ShorterSchema(a, b);
      } else if |b.schema| < |a.schema| {
        ShorterSchema(b, a);
      } else {
        assert a.schema == s[..|a.schema|] == b.schema;
        assert a.name == s[|a.schema| + 1..] == b.name;
      }
    }
  }

  /** `parameterName`: an explicit name for the placeholder number wins over the computed one. */
  function ParameterName(names: map<int, string>, number: int, defaultName: string): string
  {
    if number in names then names[number] else defaultName
  }

  // ---------------------------------------------------------------------
  // Tables in scope

  /** The range variables that name a relation; the others are skipped. */
  function Relations(rvs: seq<RangeVar>): (r: seq<RangeVar>)
    ensures forall rv :: rv in r <==> rv in rvs && rv.relname.Some?
  {
    if rvs == [] then []
    else Relations(rvs[..|rvs| - 1]) + (if rvs[|rvs| - 1].relname.Some? then [rvs[|rvs| - 1]] else [])
  }

  /** A relation-naming range variable listed twice is kept twice. */
  lemma {:induction false} RelationsCounts(rvs: seq<RangeVar>)
    ensures forall rv :: multiset(Relations(rvs))[rv] == if rv.relname.Some? then multiset(rvs)[rv] else 0
  {
    if rvs != [] {
      var prefix := rvs[..|rvs| - 1];
      assert rvs == prefix + [rvs[|rvs| - 1]];
      RelationsCounts(prefix);
    }
  }

  /**
   * The range-variable loop: every relation-naming range variable is parsed
   * and appended, the first becomes the default table, and each alias is
   * bound (a later binding of the same alias replaces an earlier one).
   */
  function CollectTables(rvs: seq<RangeVar>, parse: RangeVar -> Option<TableName>): (r: Result<Scope, ResolveError>)
    ensures r.Success? <==> forall rv :: rv in Relations(rvs) ==> parse(rv).Some?
    ensures r.Failure? ==> r.error == BadTableName
    ensures r.Success? ==>
              && |r.value.tables| == |Relations(rvs)|
              && (forall i :: 0 <= i < |r.value.tables| ==> Some(r.value.tables[i]) == parse(Relations(rvs)[i]))
              && r.value.defaultTable == (if r.value.tables == [] then None else Some(r.value.tables[0]))
    decreases |rvs|
  {
    if rvs == [] then Success(Scope([], None, map[]))
    else
      var prefix := rvs[..|rvs| - 1];
      var rv := rvs[|rvs| - 1];
      assert rvs == prefix + [rv];
      var rels := Relations(prefix);
      assert Relations(rvs) == rels + (if rv.relname.Some? then [rv] else []);
      match CollectTables(prefix, parse)
      case Failure(e) =>
        ParsedSnoc(rels, if rv.relname.Some? then [rv] else [], parse);
        Failure(e)
      case Success(s) =>
        if rv.relname.None? then
          assert Relations(rvs) == rels;
          Success(s)
        else
          ParsedSnoc(rels, [rv], parse);
          match parse(rv)
          case None => Failure(BadTableName)
          case Some(fqn) =>
            var defaultTable := if s.defaultTable.None? then Some(fqn) else s.defaultTable;
            var aliasMap := if rv.alias.Some? then s.aliasMap[rv.alias.value := fqn] else s.aliasMap;
            TablesSnoc(rels, rv, s.tables, fqn, parse);
            Success(Scope(s.tables + [fqn], defaultTable, aliasMap))
  }

  /** Every range variable of `a + b` parses exactly when every one of `a` and of `b` does. */
  lemma ParsedSnoc(a: seq<RangeVar>, b: seq<RangeVar>, parse: RangeVar -> Option<TableName>)
    ensures (forall rv :: rv in a + b ==> parse(rv).Some?) <==>
            (forall rv :: rv in a ==> parse(rv).Some?) && (forall rv :: rv in b ==> parse(rv).Some?)
  {
  }

  /** Appending a parsed table keeps the tables aligned with the relations they came from. */
  lemma TablesSnoc(rels: seq<RangeVar>, rv: RangeVar, tables: seq<TableName>, fqn: TableName, parse: RangeVar -> Option<TableName>)
    requires |tables| == |rels| && forall i :: 0 <= i < |tables| ==> Some(tables[i]) == parse(rels[i])
    requires parse(rv) == Some(fqn)
    ensures |tables + [fqn]| == |rels + [rv]|
    ensures forall i :: 0 <= i < |tables + [fqn]| ==> Some((tables + [fqn])[i]) == parse((rels + [rv])[i])
  {
  }

  /** `cols` as a map from column name to column. */
  function ColumnMap(cols: seq<Catalog.Column>): (m: map<string, Catalog.Column>)
    ensures forall k :: k in m ==> exists i :: 0 <= i < |cols| && cols[i].name == k && m[k] == cols[i]
    ensures forall i :: 0 <= i < |cols| ==> cols[i].name in m
  {
    if cols == [] then map[]
    else
      var prefix := cols[..|cols| - 1];
      var c := cols[|cols| - 1];
      assert forall i :: 0 <= i < |prefix| ==> prefix[i] == cols[i];
      ColumnMap(prefix)[c.name := c]
  }

  /** Of two columns with one name, the later one is kept. */
  lemma {:induction false} ColumnMapLastWins(cols: seq<Catalog.Column>, i: nat)
    requires i < |cols|
    requires forall j :: i < j < |cols| ==> cols[j].name != cols[i].name
    ensures ColumnMap(cols)[cols[i].name] == cols[i]
  {
    if i < |cols| - 1 {
      var prefix := cols[..|cols| - 1];
      assert prefix[i] == cols[i];
      ColumnMapLastWins(prefix, i);
    }
  }

  /** The type map: every table in scope that the catalog knows, with its columns by name; unknown tables are dropped. */
  function BuildTypeMap(c: Catalog.Catalog, tables: seq<TableName>): (tm: TypeMap)
    ensures forall t :: t in tm <==> t in tables && t in c.tables
    ensures forall t :: t in tm ==> tm[t] == ColumnMap(c.tables[t])
  {
    if tables == [] then map[]
    else
      var tm := BuildTypeMap(c, tables[..|tables| - 1]);
      var t := tables[|tables| - 1];
      assert tables == tables[..|tables| - 1] + [t];
      match Catalog.GetTable(c, t)
      case None => tm
      case Some(cols) => tm[t := ColumnMap(cols)]
  }

  /** `typeMap[t.Schema][t.Name][key]`, where a missing level reads as absent. */
  function Lookup(tm: TypeMap, t: TableName, key: string): (r: Option<Catalog.Column>)
    ensures r.Some? <==> t in tm && key in tm[t]
  {
    if t in tm && key in tm[t] then Some(tm[t][key]) else None
  }

  // ---------------------------------------------------------------------
  // Column references under an A_Expr

  /** The index of the last table in `tables` whose unqualified name is `name`. */
  function LastNamed(tables: seq<TableName>, name: string): (r: Option<nat>)
    ensures r.None? <==> forall i :: 0 <= i < |tables| ==> tables[i].name != name
    ensures r.Some? ==> r.value < |tables| && tables[r.value].name == name &&
                        forall j :: r.value < j < |tables| ==> tables[j].name != name
  {
    if tables == [] then None
    else if tables[|tables| - 1].name == name then Some(|tables| - 1)
    else
      var prefix := tables[..|tables| - 1];
      assert forall i :: 0 <= i < |prefix| ==> prefix[i] == tables[i];
      LastNamed(prefix, name)
  }

  /** The tables a column reference with qualifier `alias` ("" for none) is looked up in. */
  function SearchTables(scope: Scope, alias: string): seq<TableName>
  {
    if alias == "" then scope.tables
    else if alias in scope.aliasMap then [scope.aliasMap[alias]]
    else match LastNamed(scope.tables, alias)
      case Some(i) => [scope.tables[i]]
      case None => scope.tables
  }

  /**
   * The tables of `search` that have a column `key`, in order. A table
   * listed twice is counted twice, as the source's loop counts it.
   */
  function Holding(tm: TypeMap, search: seq<TableName>, key: string): (r: seq<TableName>)
    ensures forall t :: t in r <==> t in search && Lookup(tm, t, key).Some?
  {
    if search == [] then []
    else
      var t := search[|search| - 1];
      Holding(tm, search[..|search| - 1], key) + (if Lookup(tm, t, key).Some? then [t] else [])
  }

  /** Each table holding the column counts as often as it is searched. */
  lemma {:induction false} HoldingCounts(tm: TypeMap, search: seq<TableName>, key: string)
    ensures forall t :: multiset(Holding(tm, search, key))[t] == if Lookup(tm, t, key).Some? then multiset(search)[t] else 0
  {
    if search != [] {
      var prefix := search[..|search| - 1];
      assert search == prefix + [search[|search| - 1]];
      HoldingCounts(tm, prefix, key);
    }
  }

  /** The parameter a matched column gives. */
  function ColumnParameter(names: map<int, string>, number: int, key: string, c: Catalog.Column, t: TableName): Parameter
  {
    Parameter(number, Some(Column(ParameterName(names, number, key), DataType(c.typ), c.isNotNull, c.isArray, Some(t))))
  }

  /** Every parameter of `ps` carries the number `n`. */
  predicate NumberedAs(ps: seq<Parameter>, n: int)
  {
    forall i :: 0 <= i < |ps| ==> ps[i].number == n
  }

  /** Every named parameter of `ps` whose number has an explicit name carries that name. */
  predicate HonoursNames(ps: seq<Parameter>, names: map<int, string>)
  {
    forall i :: 0 <= i < |ps| && ps[i].column.Some? && ps[i].number in names ==> ps[i].column.value.name == names[ps[i].number]
  }

  /** The state of the table loop of the A_Expr case: matches so far, the current key, the parameters emitted. */
  datatype ColumnSearch = ColumnSearch(found: nat, key: string, params: seq<Parameter>)

  /**
   * The table loop of the A_Expr case. After each match the key is replaced
   * by the occurrence's explicit name when it has one, and the remaining
   * tables are looked up under that replaced key.
   */
  function MatchColumns(ctx: Context, search: seq<TableName>, key: string, ref: Occurrence): (r: ColumnSearch)
    ensures r.found == |r.params|
    ensures NumberedAs(r.params, ref.number) && HonoursNames(r.params, ctx.names)
    ensures r.found == 0 <==> Holding(ctx.typeMap, search, key) == []
    ensures r.found == 0 ==> r.key == key
    ensures ref.name == "" || ref.name == key ==>
              && r.key == key
              && |r.params| == |Holding(ctx.typeMap, search, key)|
              && forall i :: 0 <= i < |r.params| ==>
                   var t := Holding(ctx.typeMap, search, key)[i];
                   r.params[i] == ColumnParameter(ctx.names, ref.number, key, Lookup(ctx.typeMap, t, key).value, t)
    decreases |search|
  {
    if search == [] then ColumnSearch(0, key, [])
    else MatchStep(ctx, MatchColumns(ctx, search[..|search| - 1], key, ref), search[|search| - 1], ref)
  }

  /** One iteration of the table loop: table `t` is looked up under the current key. */
  function MatchStep(ctx: Context, prev: ColumnSearch, t: TableName, ref: Occurrence): ColumnSearch
  {
    match Lookup(ctx.typeMap, t, prev.key)
    case None => prev
    case Some(c) =>
      var key' := if ref.name != "" then ref.name else prev.key;
      ColumnSearch(prev.found + 1, key', prev.params + [ColumnParameter(ctx.names, ref.number, key', c, t)])
  }

  /** The first column reference under the left operand, if any, in walk order. */
  function FirstColumnRef(lexpr: Node): (r: Option<Node>)
    ensures r.None? <==> Search(lexpr, IsColumnRef) == []
    ensures r.Some? ==> r.value.ColumnRef? && r.value in Walk(lexpr)
  {
    var refs := Search(lexpr, IsColumnRef);
    if refs == [] then None
    else
      assert refs[0] in refs;
      Some(refs[0])
  }

  /**
   * `list.Items[0]`: the column reference taken is the first one the walk
   * meets, and there is none exactly when the walk meets no column reference.
   */
  lemma FirstColumnRefIsFirst(lexpr: Node)
    ensures FirstColumnRef(lexpr) == FirstColumnRefOf(Walk(lexpr))
    ensures FirstColumnRef(lexpr).None? <==> forall k :: 0 <= k < |Walk(lexpr)| ==> !IsColumnRef(Walk(lexpr)[k])
    ensures FirstColumnRef(lexpr).Some? ==>
              exists k :: 0 <= k < |Walk(lexpr)| && Walk(lexpr)[k] == FirstColumnRef(lexpr).value &&
                          forall j :: 0 <= j < k ==> !IsColumnRef(Walk(lexpr)[j])
  {
    FilterColumnRefsHead(Walk(lexpr));
    FirstColumnRefOfIsFirst(Walk(lexpr));
  }

  /** The table qualifier of a one- or two-part column name; empty when unqualified. */
  function Qualifier(fields: seq<string>): string
  {
    if |fields| == 2 then fields[0] else ""
  }

  /** The column part of a column name: its last field. */
  function ColumnKey(fields: seq<string>): string
    requires |fields| > 0
  {
    fields[|fields| - 1]
  }

  /** The A_Expr case: resolve the first column reference of the left operand against the tables in scope. */
  function ResolveAExpr(ctx: Context, ref: Occurrence, lexpr: Node, location: int): (r: Result<seq<Parameter>, ResolveError>)
    ensures FirstColumnRef(lexpr).None? <==> r == Failure(NoColumnReference(location))
    ensures r.Success? ==> |r.value| == 1 && NumberedAs(r.value, ref.number) && HonoursNames(r.value, ctx.names)
  {
    match FirstColumnRef(lexpr)
    case None => Failure(NoColumnReference(location))
    case Some(left) =>
      var fields := left.fields;
      if |fields| == 1 || |fields| == 2 then
        var key := ColumnKey(fields);
        var cs := MatchColumns(ctx, SearchTables(ctx.scope, Qualifier(fields)), key, ref);
        if cs.found == 0 then Failure(ColumnNotFound(cs.key, left.location))
        else if cs.found > 1 then Failure(AmbiguousColumn(cs.key, left.location))
        else Success(cs.params)
      else Failure(PanicFieldCount(|fields|))
  }

  // ---------------------------------------------------------------------
  // Function-call arguments

  /** The function a call resolves to; an unknown one is synthesised with `any` for every argument and result. */
  function CallTarget(c: Catalog.Catalog, f: FuncName, arity: nat): (fun: Catalog.Function)
    ensures (f, arity) in c.funcs ==> fun == c.funcs[(f, arity)]
    ensures (f, arity) !in c.funcs ==>
              && fun.name == f.name
              && fun.returnType == TypeName("", "any")
              && (fun.args.None? <==> arity == 0)
              && (fun.args.Some? ==>
                    && |fun.args.value| == arity
                    && forall a :: a in fun.args.value ==> a == Catalog.Argument("", TypeName("", "any")))
  {
    match Catalog.GetFuncN(c, f, arity)
    case Some(fun) => fun
    case None =>
      var args := if arity == 0 then None else Some(seq(arity, _ => Catalog.Argument("", TypeName("", "any"))));
      Catalog.Function(f.name, args, TypeName("", "any"))
  }

  /**
   * Whether a call argument is about the occurrence numbered `number`: a
   * placeholder or a named argument holding a placeholder must carry that
   * number; any other argument is never skipped.
   */
  predicate Selected(item: Node, number: int)
  {
    match item
    case ParamRef(n, _) => n == number
    case NamedArgExpr(_, arg) => arg.ParamRef? && arg.number == number
    case _ => true
  }

  /** The fallback name of an argument: the label of a named argument, else the function's name. */
  function DefaultName(item: Node, funName: string): string
  {
    if item.NamedArgExpr? && item.argName.Some? then item.argName.value else funName
  }

  /**
   * The parameter the `i`-th call argument gives, when the function declares
   * its arguments: a non-null, non-array column of the declared type, named
   * by the explicit name, else the declared argument name, else the label of
   * a named argument, else the function's name.
   */
  function ArgumentParameter(names: map<int, string>, fun: Catalog.Function, item: Node, number: int, i: nat): (p: Parameter)
    requires fun.args.Some? && i < |fun.args.value|
    ensures p.number == number && p.column.Some?
    ensures var col := p.column.value;
            && col.dataType == DataType(fun.args.value[i].typ) && col.notNull && !col.isArray && col.table.None?
    ensures number in names ==> p.column.value.name == names[number]
    ensures number !in names && fun.args.value[i].name != "" ==> p.column.value.name == fun.args.value[i].name
    ensures number !in names && fun.args.value[i].name == "" && item.NamedArgExpr? && item.argName.Some? ==>
              p.column.value.name == item.argName.value
    ensures number !in names && fun.args.value[i].name == "" && !(item.NamedArgExpr? && item.argName.Some?) ==>
              p.column.value.name == fun.name
  {
    var arg := fun.args.value[i];
    var name := if arg.name == "" then DefaultName(item, fun.name) else arg.name;
    Parameter(number, Some(Column(ParameterName(names, number, name), DataType(arg.typ), true, false, None)))
  }

  /**
   * The parameter an argument gives when the function's argument list is
   * nil: a nullable `any`, named by the explicit name, else the label of a
   * named argument, else the function's name.
   */
  function UntypedParameter(names: map<int, string>, fun: Catalog.Function, item: Node, number: int): (p: Parameter)
    ensures p.number == number && p.column.Some?
    ensures var col := p.column.value;
            && col.dataType == "any" && !col.notNull && !col.isArray && col.table.None?
    ensures number in names ==> p.column.value.name == names[number]
    ensures number !in names && item.NamedArgExpr? && item.argName.Some? ==> p.column.value.name == item.argName.value
    ensures number !in names && !(item.NamedArgExpr? && item.argName.Some?) ==> p.column.value.name == fun.name
  {
    Parameter(number, Some(Column(ParameterName(names, number, DefaultName(item, fun.name)), "any", false, false, None)))
  }

  /** The number of arguments of `items` that are about the occurrence numbered `number`. */
  function CountSelected(items: seq<Node>, number: int): (k: nat)
    ensures k <= |items|
  {
    if items == [] then 0
    else CountSelected(items[..|items| - 1], number) + (if Selected(items[|items| - 1], number) then 1 else 0)
  }

  /** The indices, from `i` on and in increasing order, of the arguments about the occurrence numbered `number`. */
  function SelectedFrom(items: seq<Node>, number: int, i: nat): (js: seq<nat>)
    requires i <= |items|
    ensures forall k :: 0 <= k < |js| ==> i <= js[k] < |items| && Selected(items[js[k]], number)
    ensures forall k, l :: 0 <= k < l < |js| ==> js[k] < js[l]
    ensures forall j :: i <= j < |items| && Selected(items[j], number) ==> j in js
    decreases |items| - i
  {
    if i == |items| then []
    else (if Selected(items[i], number) then [i] else []) + SelectedFrom(items, number, i + 1)
  }

  /** The parameter the selected argument at index `j` gives. */
  function ArgumentOf(names: map<int, string>, fun: Catalog.Function, items: seq<Node>, number: int, j: nat): Parameter
    requires j < |items|
    requires fun.args.Some? ==> j < |fun.args.value|
  {
    if fun.args.None? then UntypedParameter(names, fun, items[j], number)
    else ArgumentParameter(names, fun, items[j], number, j)
  }

  /** Whether some selected argument from index `i` on lies beyond the declared argument list. */
  predicate Overruns(fun: Catalog.Function, items: seq<Node>, number: int, i: nat)
  {
    fun.args.Some? && exists j :: i <= j < |items| && Selected(items[j], number) && j >= |fun.args.value|
  }

  /** The argument loop of the FuncCall case, from argument `i` on. */
  function ArgumentParameters(names: map<int, string>, fun: Catalog.Function, items: seq<Node>, number: int, i: nat)
    : (r: Result<seq<Parameter>, ResolveError>)
    requires i <= |items|
    ensures r.Failure? <==> Overruns(fun, items, number, i)
    ensures r.Failure? ==> r.error == WrongArgumentCount(fun.name)
    ensures r.Success? ==>
              && |r.value| == CountSelected(items, number) - CountSelected(items[..i], number)
              && NumberedAs(r.value, number) && HonoursNames(r.value, names)
    decreases |items| - i
  {
    if i == |items| then
      assert items[..i] == items;
      Success([])
    else
      assert items[..i + 1] == items[..i] + [items[i]];
      var rest := ArgumentParameters(names, fun, items, number, i + 1);
      var item := items[i];
      if !Selected(item, number) then rest
      else if fun.args.None? then Prepend(UntypedParameter(names, fun, item, number), rest)
      else if i >= |fun.args.value| then Failure(WrongArgumentCount(fun.name))
      else Prepend(ArgumentParameter(names, fun, item, number, i), rest)
  }

  /** `ps` are the parameters the arguments at the indices `js` give, in that order. */
  predicate Gives(names: map<int, string>, fun: Catalog.Function, items: seq<Node>, number: int, ps: seq<Parameter>, js: seq<nat>)
  {
    && |ps| == |js|
    && forall k :: 0 <= k < |js| ==>
         js[k] < |items| && (fun.args.Some? ==> js[k] < |fun.args.value|) &&
         ps[k] == ArgumentOf(names, fun, items, number, js[k])
  }

  lemma GivesPrepend(names: map<int, string>, fun: Catalog.Function, items: seq<Node>, number: int,
                     ps: seq<Parameter>, js: seq<nat>, j: nat)
    requires Gives(names, fun, items, number, ps, js)
    requires j < |items| && (fun.args.Some? ==> j < |fun.args.value|)
    ensures Gives(names, fun, items, number, [ArgumentOf(names, fun, items, number, j)] + ps, [j] + js)
  {
    var ps' := [ArgumentOf(names, fun, items, number, j)] + ps;
    var js' := [j] + js;
    forall k | 0 <= k < |js'|
      ensures js'[k] < |items| && (fun.args.Some? ==> js'[k] < |fun.args.value|)
      ensures ps'[k] == ArgumentOf(names, fun, items, number, js'[k])
    {
      if k > 0 {
        assert js'[k] == js[k - 1] && ps'[k] == ps[k - 1];
      }
    }
  }

  /** On success, the `k`-th parameter is the one the `k`-th selected argument from `i` on gives. */
  lemma {:induction false} ArgumentParametersContent(names: map<int, string>, fun: Catalog.Function, items: seq<Node>, number: int, i: nat)
    requires i <= |items|
    requires ArgumentParameters(names, fun, items, number, i).Success?
    ensures Gives(names, fun, items, number, ArgumentParameters(names, fun, items, number, i).value, SelectedFrom(items, number, i))
    decreases |items| - i
  {
    if i < |items| {
      ArgumentParametersContent(names, fun, items, number, i + 1);
      var rest := ArgumentParameters(names, fun, items, number, i + 1).value;
      var js' := SelectedFrom(items, number, i + 1);
      if Selected(items[i], number) {
        assert fun.args.Some? ==> i < |fun.args.value|;
        GivesPrepend(names, fun, items, number, rest, js', i);
        assert ArgumentParameters(names, fun, items, number, i).value == [ArgumentOf(names, fun, items, number, i)] + rest;
        assert SelectedFrom(items, number, i) == [i] + js';
      } else {
        assert SelectedFrom(items, number, i) == js';
      }
    }
  }

  function Prepend(p: Parameter, r: Result<seq<Parameter>, ResolveError>): (r': Result<seq<Parameter>, ResolveError>)
    ensures r'.Success? <==> r.Success?
    ensures r'.Success? ==> r'.value == [p] + r.value
    ensures r'.Failure? ==> r'.error == r.error
  {
    match r
    case Success(ps) => Success([p] + ps)
    case Failure(e) => Failure(e)
  }

  /** The FuncCall case. */
  function ResolveFuncCall(ctx: Context, ref: Occurrence, f: FuncName, args: seq<Node>): (r: Result<seq<Parameter>, ResolveError>)
    ensures var fun := CallTarget(ctx.catalog, f, |args|);
            && (r.Failure? <==> Overruns(fun, args, ref.number, 0))
            && (r.Failure? ==> r.error == WrongArgumentCount(fun.name))
    ensures r.Success? ==> |r.value| == CountSelected(args, ref.number) &&
                           NumberedAs(r.value, ref.number) && HonoursNames(r.value, ctx.names)
    ensures r.Success? ==>
              var fun := CallTarget(ctx.catalog, f, |args|);
              Gives(ctx.names, fun, args, ref.number, r.value, SelectedFrom(args, ref.number, 0))
  {
    var fun := CallTarget(ctx.catalog, f, |args|);
    var r := ArgumentParameters(ctx.names, fun, args, ref.number, 0);
    assert args[..0] == [];
    if r.Success? then ArgumentParametersContent(ctx.names, fun, args, ref.number, 0); r else r
  }

  // ---------------------------------------------------------------------
  // Insert targets and casts

  /**
   * The ResTarget case: the target column is looked up in the range
   * variable's table, or in the default table when the occurrence has none.
   * The default table is read before the range variable is considered, so
   * a statement without tables panics here either way.
   */
  function ResolveResTarget(ctx: Context, ref: Occurrence, targetName: Option<string>, location: int)
    : (r: Result<seq<Parameter>, ResolveError>)
    ensures targetName.None? ==> r == Failure(ResTargetWithoutName)
    ensures targetName.Some? && ctx.scope.defaultTable.None? ==> r == Failure(PanicNilDefaultTable)
    ensures targetName.Some? && ctx.scope.defaultTable.Some? && ref.rv.Some? && ctx.ext.parseTableName(ref.rv.value).None? ==>
              r == Failure(BadTableName)
    ensures r.Success? ==> |r.value| == 1 && NumberedAs(r.value, ref.number) && HonoursNames(r.value, ctx.names)
  {
    if targetName.None? then Failure(ResTargetWithoutName)
    else if ctx.scope.defaultTable.None? then Failure(PanicNilDefaultTable)
    else
      var key := targetName.value;
      var target := if ref.rv.None? then Some(ctx.scope.defaultTable.value) else ctx.ext.parseTableName(ref.rv.value);
      match target
      case None => Failure(BadTableName)
      case Some(t) =>
        match Lookup(ctx.typeMap, t, key)
        case Some(c) => Success([ColumnParameter(ctx.names, ref.number, key, c, t)])
        case None => Failure(ColumnNotFound(key, location))
  }

  /** The TypeCast case: the parameter takes the cast's type, under its explicit name when it has one. */
  function ResolveTypeCast(ctx: Context, ref: Occurrence, typeName: Option<TypeName>): (r: Result<seq<Parameter>, ResolveError>)
    ensures r.Failure? <==> typeName.None?
    ensures r.Failure? ==> r.error == TypeCastWithoutTypeName
    ensures r.Success? ==> |r.value| == 1 && NumberedAs(r.value, ref.number) && HonoursNames(r.value, ctx.names)
    ensures r.Success? ==>
              var col := ctx.ext.toColumn(typeName.value);
              && r.value[0].column.Some?
              && r.value[0].column.value.(name := col.name) == col
              && (ref.number !in ctx.names ==> r.value[0].column.value.name == col.name)
  {
    match typeName
    case None => Failure(TypeCastWithoutTypeName)
    case Some(tn) =>
      var col := ctx.ext.toColumn(tn);
      Success([Parameter(ref.number, Some(col.(name := ParameterName(ctx.names, ref.number, col.name))))])
  }

  // ---------------------------------------------------------------------
  // The whole resolver

  /** The LIMIT and OFFSET cases: an integer that is never null. */
  function LimitParameter(names: map<int, string>, number: int, defaultName: string): Parameter
  {
    Parameter(number, Some(Column(ParameterName(names, number, defaultName), "integer", true, false, None)))
  }

  /** One iteration of the occurrence loop: the parameters it appends, or the error it returns. */
  function ResolveRef(ctx: Context, ref: Occurrence): (r: Result<seq<Parameter>, ResolveError>)
    ensures r.Success? ==> NumberedAs(r.value, ref.number) && HonoursNames(r.value, ctx.names)
  {
    match ref.parent
    case LimitOffset => Success([LimitParameter(ctx.names, ref.number, "offset")])
    case LimitCount => Success([LimitParameter(ctx.names, ref.number, "limit")])
    case ParentNode(n) =>
      match n
      case AExpr(_, lexpr, _, location) => ResolveAExpr(ctx, ref, lexpr, location)
      case FuncCall(f, args, _) => ResolveFuncCall(ctx, ref, f, args)
      case ResTarget(targetName, _, location) => ResolveResTarget(ctx, ref, targetName, location)
      case TypeCast(_, typeName, _) => ResolveTypeCast(ctx, ref, typeName)
      case ParamRef(_, _) => Success([Parameter(ref.number, None)])
      case Nil => Success([])
      case NamedArgExpr(_, _) => Success([])
      case ColumnRef(_, _) => Success([])
      case AConst(_, _) => Success([])
      case Str(_) => Success([])
      case Integer(_) => Success([])
      case Other(_) => Success([])
  }

  /** The occurrence loop: the parameters of all occurrences in order, or the first error. */
  function ResolveAll(ctx: Context, refs: seq<Occurrence>): (r: Result<seq<Parameter>, ResolveError>)
    ensures r.Success? <==> forall i :: 0 <= i < |refs| ==> ResolveRef(ctx, refs[i]).Success?
    ensures r.Failure? ==> exists i :: 0 <= i < |refs| && ResolveRef(ctx, refs[i]) == Failure(r.error) &&
                             forall j :: 0 <= j < i ==> ResolveRef(ctx, refs[j]).Success?
    ensures r.Success? ==> HonoursNames(r.value, ctx.names)
    ensures r.Success? ==> forall p :: p in r.value ==> exists i :: 0 <= i < |refs| && refs[i].number == p.number
    decreases |refs|
  {
    if refs == [] then Success([])
    else
      var prefix := refs[..|refs| - 1];
      var last := refs[|refs| - 1];
      assert forall i :: 0 <= i < |prefix| ==> prefix[i] == refs[i];
      match ResolveAll(ctx, prefix)
      case Failure(e) => Failure(e)
      case Success(ps) =>
        match ResolveRef(ctx, last)
        case Failure(e) =>
          assert ResolveRef(ctx, refs[|refs| - 1]) == Failure(e);
          Failure(e)
        case Success(qs) =>
          assert forall p :: p in qs ==> p.number == refs[|refs| - 1].number;
          HonoursNamesConcat(ps, qs, ctx.names);
          Success(ps + qs)
  }

  lemma HonoursNamesConcat(a: seq<Parameter>, b: seq<Parameter>, names: map<int, string>)
    requires HonoursNames(a, names) && HonoursNames(b, names)
    ensures HonoursNames(a + b, names)
  {
    var ab := a + b;
    forall i | 0 <= i < |ab| && ab[i].column.Some? && ab[i].number in names
      ensures ab[i].column.value.name == names[ab[i].number]
    {
      if i < |a| { assert ab[i] == a[i]; } else { assert ab[i] == b[i - |a|]; }
    }
  }

  /** The parameter lists of `pss` one after another. */
  function Concat(pss: seq<seq<Parameter>>): (ps: seq<Parameter>)
    ensures forall i, p :: 0 <= i < |pss| && p in pss[i] ==> p in ps
  {
    if pss == [] then []
    else
      var prefix := pss[..|pss| - 1];
      assert forall i :: 0 <= i < |prefix| ==> prefix[i] == pss[i];
      Concat(prefix) + pss[|pss| - 1]
  }

  /** What each occurrence gives, when every one of them resolves. */
  function Outputs(ctx: Context, refs: seq<Occurrence>): (pss: seq<seq<Parameter>>)
    requires forall i :: 0 <= i < |refs| ==> ResolveRef(ctx, refs[i]).Success?
    ensures |pss| == |refs|
    ensures forall i :: 0 <= i < |refs| ==> ResolveRef(ctx, refs[i]) == Success(pss[i])
  {
    seq(|refs|, i requires 0 <= i < |refs| => ResolveRef(ctx, refs[i]).value)
  }

  /** On success the occurrence loop returns what the occurrences give, in the order of the occurrences. */
  lemma {:induction false} ResolveAllValue(ctx: Context, refs: seq<Occurrence>)
    requires ResolveAll(ctx, refs).Success?
    ensures ResolveAll(ctx, refs).value == Concat(Outputs(ctx, refs))
    decreases |refs|
  {
    if refs != [] {
      var prefix := refs[..|refs| - 1];
      ResolveAllSnoc(ctx, refs);
      ResolveAllValue(ctx, prefix);
      OutputsSnoc(ctx, refs);
    }
  }

  /** One more occurrence appends what it gives. */
  lemma ResolveAllSnoc(ctx: Context, refs: seq<Occurrence>)
    requires refs != [] && ResolveAll(ctx, refs).Success?
    ensures ResolveAll(ctx, refs[..|refs| - 1]).Success?
    ensures ResolveRef(ctx, refs[|refs| - 1]).Success?
    ensures ResolveAll(ctx, refs).value == ResolveAll(ctx, refs[..|refs| - 1]).value + ResolveRef(ctx, refs[|refs| - 1]).value
  {
  }

  lemma OutputsSnoc(ctx: Context, refs: seq<Occurrence>)
    requires refs != [] && forall i :: 0 <= i < |refs| ==> ResolveRef(ctx, refs[i]).Success?
    ensures var prefix := refs[..|refs| - 1];
            && (forall i :: 0 <= i < |prefix| ==> ResolveRef(ctx, prefix[i]).Success?)
            && Concat(Outputs(ctx, refs)) == Concat(Outputs(ctx, prefix)) + ResolveRef(ctx, refs[|refs| - 1]).value
  {
    var prefix := refs[..|refs| - 1];
    assert forall i :: 0 <= i < |prefix| ==> prefix[i] == refs[i];
    var out := Outputs(ctx, refs);
    assert out[..|out| - 1] == Outputs(ctx, prefix);
  }

  /** The context the occurrences of a statement are resolved in, once its tables are known. */
  function ContextFor(c: Catalog.Catalog, ext: Externals, scope: Scope, names: map<int, string>): (ctx: Context)
    ensures ctx.scope == scope && ctx.names == names
    ensures forall t :: t in ctx.typeMap <==> t in scope.tables && t in c.tables
  {
    Context(c, ext, scope, BuildTypeMap(c, scope.tables), names)
  }

  /** `resolveCatalogRefs`. */
  function ResolveCatalogRefs(c: Catalog.Catalog, ext: Externals, rvs: seq<RangeVar>, refs: seq<Occurrence>, names: map<int, string>)
    : (r: Result<seq<Parameter>, ResolveError>)
    ensures CollectTables(rvs, ext.parseTableName).Failure? ==> r == Failure(BadTableName)
    ensures CollectTables(rvs, ext.parseTableName).Success? ==>
              var ctx := ContextFor(c, ext, CollectTables(rvs, ext.parseTableName).value, names);
              && (r.Success? <==> forall i :: 0 <= i < |refs| ==> ResolveRef(ctx, refs[i]).Success?)
              && (r.Failure? ==> exists i :: 0 <= i < |refs| && ResolveRef(ctx, refs[i]) == Failure(r.error) &&
                                   forall j :: 0 <= j < i ==> ResolveRef(ctx, refs[j]).Success?)
    ensures r.Success? ==> HonoursNames(r.value, names)
    ensures r.Success? ==>
              && CollectTables(rvs, ext.parseTableName).Success?
              && var ctx := ContextFor(c, ext, CollectTables(rvs, ext.parseTableName).value, names);
                 (forall i :: 0 <= i < |refs| ==> ResolveRef(ctx, refs[i]).Success?) &&
                 r.value == Concat(Outputs(ctx, refs))
  {
    match CollectTables(rvs, ext.parseTableName)
    case Failure(e) => Failure(e)
    case Success(scope) =>
      var ctx := ContextFor(c, ext, scope, names);
      var r := ResolveAll(ctx, refs);
      if r.Success? then ResolveAllValue(ctx, refs); r else r
  }
}
