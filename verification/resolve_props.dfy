/**
 * Properties of `resolveCatalogRefs` that relate several of its parts, or
 * the resolver to the catalog it reads.
 */
module ResolveProperties {
  import opened Wrappers
  import opened Ast
  import Catalog
  import opened Compiler

  // ---------------------------------------------------------------------
  // Tables in scope

  /** An alias names the table of the last range variable that binds it. */
  lemma {:induction false} AliasLastBindingWins(rvs: seq<RangeVar>, parse: RangeVar -> Option<TableName>, i: nat)
    requires CollectTables(rvs, parse).Success?
    requires i < |rvs| && rvs[i].relname.Some? && rvs[i].alias.Some?
    requires forall j :: i < j < |rvs| && rvs[j].relname.Some? ==> rvs[j].alias != rvs[i].alias
    ensures var aliasMap := CollectTables(rvs, parse).value.aliasMap;
            rvs[i].alias.value in aliasMap && Some(aliasMap[rvs[i].alias.value]) == parse(rvs[i])
    decreases |rvs|
  {
    var prefix := rvs[..|rvs| - 1];
    var rv := rvs[|rvs| - 1];
    var s := CollectTables(prefix, parse);
    assert s.Success?;
    var m := CollectTables(rvs, parse).value.aliasMap;
    if rv.relname.None? {
      assert m == s.value.aliasMap;
    } else {
      assert m == if rv.alias.Some? then s.value.aliasMap[rv.alias.value := parse(rv).value] else s.value.aliasMap;
    }
    if i < |rvs| - 1 {
      assert prefix[i] == rvs[i];
      assert forall j :: i < j < |prefix| ==> prefix[j] == rvs[j];
      AliasLastBindingWins(prefix, parse, i);
    }
  }

  /** The aliases bound are exactly those of the relation-naming range variables. */
  lemma {:induction false} AliasKeys(rvs: seq<RangeVar>, parse: RangeVar -> Option<TableName>, a: string)
    requires CollectTables(rvs, parse).Success?
    ensures a in CollectTables(rvs, parse).value.aliasMap <==>
              exists i :: 0 <= i < |rvs| && rvs[i].relname.Some? && rvs[i].alias == Some(a)
    decreases |rvs|
  {
    if rvs != [] {
      var prefix := rvs[..|rvs| - 1];
      var rv := rvs[|rvs| - 1];
      var s := CollectTables(prefix, parse);
      assert s.Success?;
      var m := CollectTables(rvs, parse).value.aliasMap;
      if rv.relname.None? {
        assert m == s.value.aliasMap;
      } else {
        assert m == if rv.alias.Some? then s.value.aliasMap[rv.alias.value := parse(rv).value] else s.value.aliasMap;
      }
      AliasKeys(prefix, parse, a);
      assert forall i :: 0 <= i < |prefix| ==> prefix[i] == rvs[i];
      if rv.relname.Some? && rv.alias == Some(a) {
        assert rvs[|rvs| - 1].relname.Some? && rvs[|rvs| - 1].alias == Some(a);
      }
    }
  }

  /** The type map holds, for a table in scope that the catalog knows, the last catalog column of each name. */
  lemma TypeMapColumn(c: Catalog.Catalog, tables: seq<TableName>, t: TableName, i: nat)
    requires t in tables && t in c.tables
    requires i < |c.tables[t]|
    requires forall j :: i < j < |c.tables[t]| ==> c.tables[t][j].name != c.tables[t][i].name
    ensures Lookup(BuildTypeMap(c, tables), t, c.tables[t][i].name) == Some(c.tables[t][i])
  {
    ColumnMapLastWins(c.tables[t], i);
  }

  /** A name is a column of a table in the type map exactly when the catalog declares a column of that name. */
  lemma TypeMapAgreesWithCatalog(c: Catalog.Catalog, tables: seq<TableName>, t: TableName, key: string)
    ensures Lookup(BuildTypeMap(c, tables), t, key).Some? <==>
              t in tables && t in c.tables && exists col :: col in c.tables[t] && col.name == key
    ensures Lookup(BuildTypeMap(c, tables), t, key).Some? ==>
              Lookup(BuildTypeMap(c, tables), t, key).value in c.tables[t] &&
              Lookup(BuildTypeMap(c, tables), t, key).value.name == key
  {
    var tm := BuildTypeMap(c, tables);
    if t in tables && t in c.tables {
      if exists col :: col in c.tables[t] && col.name == key {
        var col :| col in c.tables[t] && col.name == key;
        var i :| 0 <= i < |c.tables[t]| && c.tables[t][i] == col;
        assert c.tables[t][i].name in tm[t];
      }
    }
  }

  // ---------------------------------------------------------------------
  // Column references under an A_Expr

  /** A qualifier names an alias first, then the last table of that name; otherwise every table is searched. */
  lemma QualifierResolution(scope: Scope, alias: string)
    ensures alias == "" ==> SearchTables(scope, alias) == scope.tables
    ensures alias != "" && alias in scope.aliasMap ==> SearchTables(scope, alias) == [scope.aliasMap[alias]]
    ensures alias != "" && alias !in scope.aliasMap && (forall t :: t in scope.tables ==> t.name != alias) ==>
              SearchTables(scope, alias) == scope.tables
    ensures forall i :: 0 <= i < |scope.tables| && alias != "" && alias !in scope.aliasMap && scope.tables[i].name == alias ==>
              (forall j :: i < j < |scope.tables| ==> scope.tables[j].name != alias) ==>
              SearchTables(scope, alias) == [scope.tables[i]]
  {
    if alias != "" && alias !in scope.aliasMap {
      var r := LastNamed(scope.tables, alias);
      if r.None? {
        assert forall t :: t in scope.tables ==> t.name != alias;
      }
    }
  }

  /** No table of `search` has the column `key`. */
  lemma {:induction false} HoldingNone(tm: TypeMap, search: seq<TableName>, key: string)
    requires forall i :: 0 <= i < |search| ==> Lookup(tm, search[i], key).None?
    ensures Holding(tm, search, key) == []
  {
    if search != [] {
      HoldingNone(tm, search[..|search| - 1], key);
    }
  }

  /**
   * The table loop over `a + b` is the loop over `a` followed by the loop
   * over `b`, started with the key the first part ended with.
   */
  lemma {:induction false} MatchColumnsConcat(ctx: Context, a: seq<TableName>, b: seq<TableName>, key: string, ref: Occurrence)
    ensures var p := MatchColumns(ctx, a, key, ref);
            var q := MatchColumns(ctx, b, p.key, ref);
            MatchColumns(ctx, a + b, key, ref) == ColumnSearch(p.found + q.found, q.key, p.params + q.params)
    decreases |b|
  {
    var p := MatchColumns(ctx, a, key, ref);
    if b == [] {
      assert a + b == a;
    } else {
      var b' := b[..|b| - 1];
      var t := b[|b| - 1];
      assert (a + b)[..|a + b| - 1] == a + b' && (a + b)[|a + b| - 1] == t;
      MatchColumnsConcat(ctx, a, b', key, ref);
      var q' := MatchColumns(ctx, b', p.key, ref);
      assert MatchColumns(ctx, a + b, key, ref) == MatchStep(ctx, ColumnSearch(p.found + q'.found, q'.key, p.params + q'.params), t, ref);
      assert MatchColumns(ctx, b, p.key, ref) == MatchStep(ctx, q', t, ref);
      MatchStepShift(ctx, p.found, p.params, q', t, ref);
    }
  }

  /** An iteration does not depend on the matches counted and parameters emitted before it. */
  lemma MatchStepShift(ctx: Context, n: nat, ps: seq<Parameter>, x: ColumnSearch, t: TableName, ref: Occurrence)
    ensures var y := MatchStep(ctx, x, t, ref);
            MatchStep(ctx, ColumnSearch(n + x.found, x.key, ps + x.params), t, ref) == ColumnSearch(n + y.found, y.key, ps + y.params)
  {
    match Lookup(ctx.typeMap, t, x.key)
    case None =>
    case Some(c) =>
      var key' := if ref.name != "" then ref.name else x.key;
      var z := ColumnParameter(ctx.names, ref.number, key', c, t);
      assert (ps + x.params) + [z] == ps + (x.params + [z]);
  }

  /**
   * With an explicit name, the first table that has the column gives the
   * parameter under that name, and the tables after it are searched for the
   * explicit name instead of the column.
   */
  lemma MatchColumnsRenamed(ctx: Context, search: seq<TableName>, key: string, ref: Occurrence, j: nat)
    requires ref.name != ""
    requires j < |search| && Lookup(ctx.typeMap, search[j], key).Some?
    requires forall i :: 0 <= i < j ==> Lookup(ctx.typeMap, search[i], key).None?
    ensures var rest := MatchColumns(ctx, search[j + 1..], ref.name, ref);
            var first := ColumnParameter(ctx.names, ref.number, ref.name, Lookup(ctx.typeMap, search[j], key).value, search[j]);
            MatchColumns(ctx, search, key, ref) == ColumnSearch(1 + rest.found, ref.name, [first] + rest.params)
  {
    var before := search[..j];
    var at := [search[j]];
    var after := search[j + 1..];
    var c := Lookup(ctx.typeMap, search[j], key).value;
    var first := ColumnParameter(ctx.names, ref.number, ref.name, c, search[j]);
    assert search == (before + at) + after;
    HoldingNone(ctx.typeMap, before, key);
    assert MatchColumns(ctx, before, key, ref) == ColumnSearch(0, key, []);
    MatchColumnsOne(ctx, search[j], key, ref);
    MatchColumnsConcat(ctx, before, at, key, ref);
    assert [] + [first] == [first];
    assert MatchColumns(ctx, before + at, key, ref) == ColumnSearch(1, ref.name, [first]);
    MatchColumnsConcat(ctx, before + at, after, key, ref);
  }

  /** The table loop over a single table. */
  lemma MatchColumnsOne(ctx: Context, t: TableName, key: string, ref: Occurrence)
    ensures MatchColumns(ctx, [t], key, ref) ==
              match Lookup(ctx.typeMap, t, key)
              case None => ColumnSearch(0, key, [])
              case Some(c) =>
                var key' := if ref.name != "" then ref.name else key;
                ColumnSearch(1, key', [ColumnParameter(ctx.names, ref.number, key', c, t)])
  {
    assert [t][..0] == [];
  }

  /** A column name of any other length than one or two parts makes the A_Expr case panic. */
  lemma AExprPanic(ctx: Context, ref: Occurrence, lexpr: Node, location: int, left: Node)
    requires FirstColumnRef(lexpr) == Some(left) && |left.fields| != 1 && |left.fields| != 2
    ensures ResolveAExpr(ctx, ref, lexpr, location) == Failure(PanicFieldCount(|left.fields|))
  {
  }

  /** No searched table has the column: it is reported missing at the column reference. */
  lemma AExprNotFound(ctx: Context, ref: Occurrence, lexpr: Node, location: int, left: Node)
    requires FirstColumnRef(lexpr) == Some(left) && (|left.fields| == 1 || |left.fields| == 2)
    requires Holding(ctx.typeMap, SearchTables(ctx.scope, Qualifier(left.fields)), ColumnKey(left.fields)) == []
    ensures ResolveAExpr(ctx, ref, lexpr, location) == Failure(ColumnNotFound(ColumnKey(left.fields), left.location))
  {
    AExprUnfold(ctx, ref, lexpr, location, left);
  }

  /** Without an explicit name, exactly one table having the column yields that column's parameter. */
  lemma AExprUnique(ctx: Context, ref: Occurrence, lexpr: Node, location: int, left: Node)
    requires FirstColumnRef(lexpr) == Some(left) && (|left.fields| == 1 || |left.fields| == 2) && ref.name == ""
    requires |Holding(ctx.typeMap, SearchTables(ctx.scope, Qualifier(left.fields)), ColumnKey(left.fields))| == 1
    ensures var key := ColumnKey(left.fields);
            var t := Holding(ctx.typeMap, SearchTables(ctx.scope, Qualifier(left.fields)), key)[0];
            ResolveAExpr(ctx, ref, lexpr, location) == Success([ColumnParameter(ctx.names, ref.number, key, Lookup(ctx.typeMap, t, key).value, t)])
  {
    var key := ColumnKey(left.fields);
    var search := SearchTables(ctx.scope, Qualifier(left.fields));
    var cs := MatchColumns(ctx, search, key, ref);
    var t := Holding(ctx.typeMap, search, key)[0];
    AExprUnfold(ctx, ref, lexpr, location, left);
    assert cs.params[0] == ColumnParameter(ctx.names, ref.number, key, Lookup(ctx.typeMap, t, key).value, t);
    assert cs.params == [cs.params[0]];
  }

  /** Without an explicit name, several tables having the column make the reference ambiguous. */
  lemma AExprAmbiguous(ctx: Context, ref: Occurrence, lexpr: Node, location: int, left: Node)
    requires FirstColumnRef(lexpr) == Some(left) && (|left.fields| == 1 || |left.fields| == 2) && ref.name == ""
    requires |Holding(ctx.typeMap, SearchTables(ctx.scope, Qualifier(left.fields)), ColumnKey(left.fields))| > 1
    ensures ResolveAExpr(ctx, ref, lexpr, location) == Failure(AmbiguousColumn(ColumnKey(left.fields), left.location))
  {
    AExprUnfold(ctx, ref, lexpr, location, left);
  }

  /**
   * With an explicit name, the first searched table that has the column
   * gives the parameter under that name; the reference is ambiguous exactly
   * when a later searched table has a column of the explicit name.
   */
  lemma AExprNamed(ctx: Context, ref: Occurrence, lexpr: Node, location: int, left: Node, j: nat)
    requires FirstColumnRef(lexpr) == Some(left) && (|left.fields| == 1 || |left.fields| == 2) && ref.name != ""
    requires var search := SearchTables(ctx.scope, Qualifier(left.fields));
             && j < |search| && Lookup(ctx.typeMap, search[j], ColumnKey(left.fields)).Some?
             && forall i :: 0 <= i < j ==> Lookup(ctx.typeMap, search[i], ColumnKey(left.fields)).None?
    ensures var key := ColumnKey(left.fields);
            var search := SearchTables(ctx.scope, Qualifier(left.fields));
            ResolveAExpr(ctx, ref, lexpr, location) ==
              if Holding(ctx.typeMap, search[j + 1..], ref.name) == [] then
                Success([ColumnParameter(ctx.names, ref.number, ref.name, Lookup(ctx.typeMap, search[j], key).value, search[j])])
              else Failure(AmbiguousColumn(ref.name, left.location))
  {
    var key := ColumnKey(left.fields);
    var search := SearchTables(ctx.scope, Qualifier(left.fields));
    AExprUnfold(ctx, ref, lexpr, location, left);
    MatchColumnsRenamed(ctx, search, key, ref, j);
    var rest := MatchColumns(ctx, search[j + 1..], ref.name, ref);
    var first := ColumnParameter(ctx.names, ref.number, ref.name, Lookup(ctx.typeMap, search[j], key).value, search[j]);
    var cs := MatchColumns(ctx, search, key, ref);
    assert cs == ColumnSearch(1 + rest.found, ref.name, [first] + rest.params);
    if rest.found == 0 {
      assert rest.params == [] && [first] + [] == [first];
      assert cs.params == [first];
    }
  }

  /** With one or two fields, the outcome is read off the column search. */
  lemma AExprUnfold(ctx: Context, ref: Occurrence, lexpr: Node, location: int, left: Node)
    requires FirstColumnRef(lexpr) == Some(left) && (|left.fields| == 1 || |left.fields| == 2)
    ensures var cs := MatchColumns(ctx, SearchTables(ctx.scope, Qualifier(left.fields)), ColumnKey(left.fields), ref);
            ResolveAExpr(ctx, ref, lexpr, location) ==
              if cs.found == 0 then Failure(ColumnNotFound(cs.key, left.location))
              else if cs.found > 1 then Failure(AmbiguousColumn(cs.key, left.location))
              else Success(cs.params)
  {
  }

  /** Externals that no example below calls. */
  function NoExternals(): Externals
  {
    Externals(rv => None, tn => Column("", "", false, false, None))
  }

  /** A statement without tables, resolved against catalog `c` without explicit names. */
  function NoTables(c: Catalog.Catalog): Context
  {
    Context(c, NoExternals(), Scope([], None, map[]), map[], map[])
  }

  /** Two tables in scope that both have an `id` column, as `users` and `orders`. */
  function TwoTables(): Context
  {
    var id := Catalog.Column("id", TypeName("", "int8"), true, false);
    var users := Catalog.TableName("", "users");
    var orders := Catalog.TableName("", "orders");
    var c := Catalog.Catalog(map[users := [id], orders := [id]], map[]);
    Context(c, NoExternals(), Scope([users, orders], Some(users), map[]), map[users := map["id" := id], orders := map["id" := id]], map[])
  }

  /** The left operand `id` is its own first column reference. */
  lemma FirstColumnRefOfId()
    ensures FirstColumnRef(ColumnRef(["id"], 7)) == Some(ColumnRef(["id"], 7))
  {
    var lexpr := ColumnRef(["id"], 7);
    assert StrNodes(["id"]) == [Str("id")];
    assert Walk(lexpr) == [lexpr, Str("id")];
  }

  /** Both `users` and `orders` have an `id` column. */
  lemma TwoTablesHoldId()
    ensures var users := Catalog.TableName("", "users");
            var orders := Catalog.TableName("", "orders");
            Holding(TwoTables().typeMap, [users, orders], "id") == [users, orders]
  {
    var users := Catalog.TableName("", "users");
    var orders := Catalog.TableName("", "orders");
    assert [users, orders][..1] == [users] && [users][..0] == [];
    assert Holding(TwoTables().typeMap, [users], "id") == [users];
  }

  /** An unqualified `id` is ambiguous between `users` and `orders`. */
  lemma AmbiguousAcrossTables()
    ensures var lexpr := ColumnRef(["id"], 7);
            var ref := Occurrence(ParentNode(AExpr(["="], lexpr, ParamRef(1, 12), 10)), None, 1, "");
            ResolveAExpr(TwoTables(), ref, lexpr, 10) == Failure(AmbiguousColumn("id", 7))
  {
    var lexpr := ColumnRef(["id"], 7);
    var ref := Occurrence(ParentNode(AExpr(["="], lexpr, ParamRef(1, 12), 10)), None, 1, "");
    var ctx := TwoTables();
    FirstColumnRefOfId();
    assert Qualifier(lexpr.fields) == "" && ColumnKey(lexpr.fields) == "id";
    QualifierResolution(ctx.scope, "");
    TwoTablesHoldId();
    AExprAmbiguous(ctx, ref, lexpr, 10, lexpr);
  }

  /** `users` in scope twice, as in a self-join without aliases. */
  function SelfJoin(): Context
  {
    var id := Catalog.Column("id", TypeName("", "int8"), true, false);
    var users := Catalog.TableName("", "users");
    var c := Catalog.Catalog(map[users := [id]], map[]);
    Context(c, NoExternals(), Scope([users, users], Some(users), map[]), map[users := map["id" := id]], map[])
  }

  /** A table listed twice counts as two tables that both have the column. */
  lemma DuplicateTableAmbiguous()
    ensures var lexpr := ColumnRef(["id"], 7);
            var ref := Occurrence(ParentNode(AExpr(["="], lexpr, ParamRef(1, 12), 10)), None, 1, "");
            ResolveAExpr(SelfJoin(), ref, lexpr, 10) == Failure(AmbiguousColumn("id", 7))
  {
    var lexpr := ColumnRef(["id"], 7);
    var ref := Occurrence(ParentNode(AExpr(["="], lexpr, ParamRef(1, 12), 10)), None, 1, "");
    var ctx := SelfJoin();
    var users := Catalog.TableName("", "users");
    FirstColumnRefOfId();
    assert Qualifier(lexpr.fields) == "" && ColumnKey(lexpr.fields) == "id";
    QualifierResolution(ctx.scope, "");
    assert [users, users][..1] == [users] && [users][..0] == [];
    assert Holding(ctx.typeMap, [users], "id") == [users];
    assert |Holding(ctx.typeMap, [users, users], "id")| == 2;
    AExprAmbiguous(ctx, ref, lexpr, 10, lexpr);
  }

  /**
   * After `users` matches `id`, the key becomes the explicit name, which
   * `orders` does not have: the search stops at one match.
   */
  lemma RenamedSearch(ref: Occurrence)
    requires ref.name == "user_id"
    ensures var users := Catalog.TableName("", "users");
            var orders := Catalog.TableName("", "orders");
            MatchColumns(TwoTables(), [users, orders], "id", ref) ==
              ColumnSearch(1, "user_id", [Parameter(ref.number, Some(Column("user_id", "int8", true, false, Some(users))))])
  {
    var ctx := TwoTables();
    var users := Catalog.TableName("", "users");
    var orders := Catalog.TableName("", "orders");
    var p := Parameter(ref.number, Some(Column("user_id", "int8", true, false, Some(users))));
    assert [users, orders][..1] == [users] && [users][..0] == [];
    assert MatchColumns(ctx, [users], "id", ref) == ColumnSearch(1, "user_id", [p]);
    assert Lookup(ctx.typeMap, orders, "user_id").None?;
  }

  /**
   * The key is replaced by the occurrence's explicit name after the first
   * match, so the remaining tables are searched for the explicit name: the
   * `id` that is ambiguous between two tables resolves to the first of them
   * as soon as the occurrence carries a name.
   */
  lemma RenameMasksAmbiguity()
    ensures var lexpr := ColumnRef(["id"], 7);
            var ref := Occurrence(ParentNode(AExpr(["="], lexpr, ParamRef(1, 12), 10)), None, 1, "user_id");
            ResolveAExpr(TwoTables(), ref, lexpr, 10) ==
              Success([Parameter(1, Some(Column("user_id", "int8", true, false, Some(Catalog.TableName("", "users")))))])
  {
    var lexpr := ColumnRef(["id"], 7);
    var ref := Occurrence(ParentNode(AExpr(["="], lexpr, ParamRef(1, 12), 10)), None, 1, "user_id");
    var ctx := TwoTables();
    FirstColumnRefOfId();
    assert Qualifier(lexpr.fields) == "" && ColumnKey(lexpr.fields) == "id";
    QualifierResolution(ctx.scope, "");
    RenamedSearch(ref);
    AExprUnfold(ctx, ref, lexpr, 10, lexpr);
  }

  // ---------------------------------------------------------------------
  // Function-call arguments

  /** When every declared argument is an unnamed `any`, every selected argument gives a non-null `any` parameter. */
  lemma {:induction false} UniformArguments(names: map<int, string>, fun: Catalog.Function, items: seq<Node>, number: int, i: nat)
    requires i <= |items|
    requires fun.args.Some? && |fun.args.value| == |items|
    requires forall a :: a in fun.args.value ==> a == Catalog.Argument("", TypeName("", "any"))
    ensures var r := ArgumentParameters(names, fun, items, number, i);
            && r.Success?
            && forall p :: p in r.value ==> p.column.Some? && p.column.value.dataType == "any" && p.column.value.notNull &&
                                            !p.column.value.isArray && p.column.value.table.None?
    decreases |items| - i
  {
    if i < |items| {
      UniformArguments(names, fun, items, number, i + 1);
      assert fun.args.value[i] in fun.args.value;
    }
  }

  /** A function the catalog does not know is called with `any` arguments: it never fails, and every parameter is a non-null `any`. */
  lemma UnknownFunction(ctx: Context, ref: Occurrence, f: FuncName, args: seq<Node>)
    requires (f, |args|) !in ctx.catalog.funcs
    ensures var r := ResolveFuncCall(ctx, ref, f, args);
            && r.Success? && |r.value| == CountSelected(args, ref.number)
            && forall p :: p in r.value ==> p.column.Some? && p.column.value.dataType == "any" && p.column.value.notNull &&
                                            !p.column.value.isArray && p.column.value.table.None?
  {
    var fun := CallTarget(ctx.catalog, f, |args|);
    if |args| == 0 {
      assert ArgumentParameters(ctx.names, fun, args, ref.number, 0) == Success([]);
    } else {
      UniformArguments(ctx.names, fun, args, ref.number, 0);
    }
  }

  /** A catalogued function whose argument list is nil gives a nullable `any` parameter for every selected argument. */
  lemma {:induction false} NilArgumentList(names: map<int, string>, fun: Catalog.Function, items: seq<Node>, number: int, i: nat)
    requires i <= |items| && fun.args.None?
    ensures var r := ArgumentParameters(names, fun, items, number, i);
            && r.Success?
            && forall p :: p in r.value ==> p.column.Some? && p.column.value.dataType == "any" && !p.column.value.notNull
    decreases |items| - i
  {
    if i < |items| {
      NilArgumentList(names, fun, items, number, i + 1);
    }
  }

  /**
   * The name a catalogued function gives its argument takes precedence over
   * the label of a named argument: `f(b => $1)` for `f(a int)` gives a
   * parameter named `a`.
   */
  lemma CatalogNameBeatsLabel()
    ensures var f := FuncName("", "f");
            var fun := Catalog.Function("f", Some([Catalog.Argument("a", TypeName("", "int4"))]), TypeName("", "void"));
            var c := Catalog.Catalog(map[], map[(f, 1) := fun]);
            var ctx := NoTables(c);
            var args := [NamedArgExpr(Some("b"), ParamRef(1, 5))];
            var ref := Occurrence(ParentNode(FuncCall(f, args, 0)), None, 1, "");
            ResolveRef(ctx, ref) == Success([Parameter(1, Some(Column("a", "int4", true, false, None)))])
  {
    var f := FuncName("", "f");
    var fun := Catalog.Function("f", Some([Catalog.Argument("a", TypeName("", "int4"))]), TypeName("", "void"));
    var c := Catalog.Catalog(map[], map[(f, 1) := fun]);
    var args := [NamedArgExpr(Some("b"), ParamRef(1, 5))];
    assert CallTarget(c, f, 1) == fun;
    var rest := ArgumentParameters(map[], fun, args, 1, 1);
    assert rest == Success([]);
    assert ArgumentParameters(map[], fun, args, 1, 0) == Prepend(ArgumentParameter(map[], fun, args[0], 1, 0), rest);
    assert ArgumentParameter(map[], fun, args[0], 1, 0) == Parameter(1, Some(Column("a", "int4", true, false, None)));
    var ctx := NoTables(c);
    var ref := Occurrence(ParentNode(FuncCall(f, args, 0)), None, 1, "");
    assert ResolveRef(ctx, ref) == ResolveFuncCall(ctx, ref, f, args);
    assert ResolveFuncCall(ctx, ref, f, args) == ArgumentParameters(map[], fun, args, 1, 0);
    var q := Parameter(1, Some(Column("a", "int4", true, false, None)));
    assert Prepend(q, rest) == Success([q] + []) && [q] + [] == [q];
  }

  /**
   * An argument that is neither a placeholder nor a named argument is not
   * skipped: `f(x, $1)` of an unknown `f` gives a parameter for `x` as well.
   */
  lemma OtherArgumentsNotSkipped()
    ensures var f := FuncName("", "f");
            var ctx := NoTables(Catalog.Catalog(map[], map[]));
            var args := [ColumnRef(["x"], 2), ParamRef(1, 5)];
            var ref := Occurrence(ParentNode(FuncCall(f, args, 0)), None, 1, "");
            var p := Parameter(1, Some(Column("f", "any", true, false, None)));
            ResolveRef(ctx, ref) == Success([p, p])
  {
    var f := FuncName("", "f");
    var args := [ColumnRef(["x"], 2), ParamRef(1, 5)];
    var fun := CallTarget(Catalog.Catalog(map[], map[]), f, 2);
    var any := Catalog.Argument("", TypeName("", "any"));
    assert fun.args.value[0] == any && fun.args.value[1] == any;
    var p := Parameter(1, Some(Column("f", "any", true, false, None)));
    var r2 := ArgumentParameters(map[], fun, args, 1, 2);
    assert r2 == Success([]);
    var r1 := ArgumentParameters(map[], fun, args, 1, 1);
    assert r1 == Prepend(ArgumentParameter(map[], fun, args[1], 1, 1), r2);
    assert ArgumentParameter(map[], fun, args[1], 1, 1) == p;
    var r0 := ArgumentParameters(map[], fun, args, 1, 0);
    assert r0 == Prepend(ArgumentParameter(map[], fun, args[0], 1, 0), r1);
    assert ArgumentParameter(map[], fun, args[0], 1, 0) == p;
    assert [p] + ([p] + []) == [p, p];
    var ctx := NoTables(Catalog.Catalog(map[], map[]));
    var ref := Occurrence(ParentNode(FuncCall(f, args, 0)), None, 1, "");
    assert ResolveRef(ctx, ref) == ResolveFuncCall(ctx, ref, f, args) == r0;
  }

  // ---------------------------------------------------------------------
  // Insert targets

  /**
   * An insert target resolves exactly when the catalog declares the column
   * in the target table (the range variable's, else the default table) and
   * that table is in scope; the parameter then takes the column's type,
   * nullability and array-ness and names the table.
   */
  lemma ResTargetAgainstCatalog(c: Catalog.Catalog, ext: Externals, scope: Scope, names: map<int, string>,
                                ref: Occurrence, key: string, location: int)
    requires scope.defaultTable.Some?
    requires ref.rv.Some? ==> ext.parseTableName(ref.rv.value).Some?
    ensures var ctx := ContextFor(c, ext, scope, names);
            var t := if ref.rv.None? then scope.defaultTable.value else ext.parseTableName(ref.rv.value).value;
            var r := ResolveResTarget(ctx, ref, Some(key), location);
            && (r.Success? <==> t in scope.tables && t in c.tables && exists col :: col in c.tables[t] && col.name == key)
            && (r.Failure? ==> r.error == ColumnNotFound(key, location))
            && (r.Success? ==> exists col :: col in c.tables[t] && col.name == key &&
                                 r.value == [ColumnParameter(names, ref.number, key, col, t)])
  {
    var ctx := ContextFor(c, ext, scope, names);
    var t := if ref.rv.None? then scope.defaultTable.value else ext.parseTableName(ref.rv.value).value;
    TypeMapAgreesWithCatalog(c, scope.tables, t, key);
  }

  /** With no table in scope an insert target panics, even when the occurrence brings its own range variable. */
  lemma ResTargetNeedsDefaultTable(c: Catalog.Catalog, ext: Externals, rvs: seq<RangeVar>, ref: Occurrence, key: string, location: int)
    requires forall i :: 0 <= i < |rvs| ==> rvs[i].relname.None?
    requires ref.parent == ParentNode(ResTarget(Some(key), Nil, location))
    ensures ResolveCatalogRefs(c, ext, rvs, [ref], map[]) == Failure(PanicNilDefaultTable)
  {
    NoRelations(rvs);
  }

  /** Range variables that name no relation contribute no table. */
  lemma {:induction false} NoRelations(rvs: seq<RangeVar>)
    requires forall i :: 0 <= i < |rvs| ==> rvs[i].relname.None?
    ensures Relations(rvs) == []
  {
    if rvs != [] {
      NoRelations(rvs[..|rvs| - 1]);
    }
  }

  // ---------------------------------------------------------------------
  // The whole resolver

  /** LIMIT and OFFSET placeholders are non-null integers named `limit` and `offset` unless named explicitly. */
  lemma LimitAndOffset(ctx: Context, rv: Option<RangeVar>, number: int, name: string)
    ensures ResolveRef(ctx, Occurrence(LimitCount, rv, number, name)) ==
              Success([Parameter(number, Some(Column(if number in ctx.names then ctx.names[number] else "limit", "integer", true, false, None)))])
    ensures ResolveRef(ctx, Occurrence(LimitOffset, rv, number, name)) ==
              Success([Parameter(number, Some(Column(if number in ctx.names then ctx.names[number] else "offset", "integer", true, false, None)))])
  {
  }

  /** A placeholder under a bare placeholder gives an untyped parameter; any other parent contributes nothing. */
  lemma OtherParents(ctx: Context, ref: Occurrence)
    requires ref.parent.ParentNode?
    requires !ref.parent.node.AExpr? && !ref.parent.node.FuncCall? && !ref.parent.node.ResTarget? && !ref.parent.node.TypeCast?
    ensures ref.parent.node.ParamRef? ==> ResolveRef(ctx, ref) == Success([Parameter(ref.number, None)])
    ensures !ref.parent.node.ParamRef? ==> ResolveRef(ctx, ref) == Success([])
  {
  }

  /**
   * Every parameter produced carries the number of one of the occurrences,
   * and the explicit name where one is given; and each occurrence's
   * parameters all appear in the result.
   */
  lemma ResolvedParameters(c: Catalog.Catalog, ext: Externals, rvs: seq<RangeVar>, refs: seq<Occurrence>, names: map<int, string>)
    requires ResolveCatalogRefs(c, ext, rvs, refs, names).Success?
    ensures var ps := ResolveCatalogRefs(c, ext, rvs, refs, names).value;
            && HonoursNames(ps, names)
            && (forall p :: p in ps ==> exists i :: 0 <= i < |refs| && refs[i].number == p.number)
            && var ctx := ContextFor(c, ext, CollectTables(rvs, ext.parseTableName).value, names);
               forall i, p :: 0 <= i < |refs| && p in ResolveRef(ctx, refs[i]).value ==> p in ps
  {
    var ctx := ContextFor(c, ext, CollectTables(rvs, ext.parseTableName).value, names);
    var out := Outputs(ctx, refs);
    forall i, p | 0 <= i < |refs| && p in ResolveRef(ctx, refs[i]).value
      ensures p in Concat(out)
    {
      assert p in out[i];
    }
  }
}
