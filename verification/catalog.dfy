/**
 * The read-only schema catalog the resolver consults (`internal/sql/catalog`),
 * reduced to the two lookups it makes: a table's columns by qualified name,
 * and a function by name and argument count.
 */
module Catalog {
  import opened Wrappers
  import opened Ast

  /** `ast.TableName`: an optionally schema-qualified table name. */
  datatype TableName = TableName(schema: string, name: string)

  /** `catalog.Column`: a declared column of a table. */
  datatype Column = Column(name: string, typ: TypeName, isNotNull: bool, isArray: bool)

  /** `catalog.Argument`: a declared function argument; `name` is "" when unnamed. */
  datatype Argument = Argument(name: string, typ: TypeName)

  /** `catalog.Function`; `args` is `None` when the argument slice is nil. */
  datatype Function = Function(name: string, args: Option<seq<Argument>>, returnType: TypeName)

  datatype Catalog = Catalog(tables: map<TableName, seq<Column>>, funcs: map<(FuncName, nat), Function>)

  /** `GetTable`: the columns of a known table, or `None` for the lookup error. */
  function GetTable(c: Catalog, fqn: TableName): (r: Option<seq<Column>>)
    ensures r.Some? <==> fqn in c.tables
  {
    if fqn in c.tables then Some(c.tables[fqn]) else None
  }

  /** `GetFuncN`: the function of that name taking `arity` arguments, or `None` for the lookup error. */
  function GetFuncN(c: Catalog, f: FuncName, arity: nat): (r: Option<Function>)
    ensures r.Some? <==> (f, arity) in c.funcs
  {
    if (f, arity) in c.funcs then Some(c.funcs[(f, arity)]) else None
  }
}
