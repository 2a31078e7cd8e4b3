/**
 * The slice of sqlc's statement AST that the parameter pipeline looks at
 * (packages `ast` and `ast/pg`), with the pre-order walk of `astutils.Walk`
 * and the node collector `astutils.Search` built on it.
 */
module Ast {
  import opened Wrappers

  /** `ast.TypeName`: an optionally schema-qualified type name. */
  datatype TypeName = TypeName(schema: string, name: string)

  /** `ast.FuncName`: an optionally schema-qualified function name. */
  datatype FuncName = FuncName(schema: string, name: string)

  /**
   * A statement node. `Nil` stands for an absent (nil) child, and `Other`
   * for every node kind the pipeline does not inspect (lists, statements,
   * clauses, ...), which only matters through its children.
   */
  datatype Node =
    | Nil
    | FuncCall(func: FuncName, args: seq<Node>, location: int)
    | AExpr(name: seq<string>, lexpr: Node, rexpr: Node, location: int)
    | TypeCast(arg: Node, typeName: Option<TypeName>, location: int)
    | NamedArgExpr(argName: Option<string>, arg: Node)
    | ResTarget(targetName: Option<string>, val: Node, location: int)
    | ColumnRef(fields: seq<string>, location: int)
    | ParamRef(number: int, location: int)
    | AConst(val: Node, location: int)
    | Str(str: string)
    | Integer(ival: int)
    | Other(children: seq<Node>)

  /** The `String` nodes of a name list such as an operator name or the fields of a column reference. */
  function StrNodes(ss: seq<string>): (r: seq<Node>)
    ensures |r| == |ss|
    ensures forall i :: 0 <= i < |r| ==> r[i] == Str(ss[i])
  {
    seq(|ss|, i requires 0 <= i < |ss| => Str(ss[i]))
  }

  /**
   * Every node visited by `astutils.Walk`, in visiting order: the node
   * itself, then each non-nil child field in declaration order.
   */
  function Walk(n: Node): (r: seq<Node>)
    ensures n.Nil? <==> r == []
    ensures !n.Nil? ==> r[0] == n
    decreases n, 0
  {
    match n
    case Nil => []
    case FuncCall(_, args, _) => [n] + WalkSeq(args)
    case AExpr(name, lexpr, rexpr, _) => [n] + StrNodes(name) + Walk(lexpr) + Walk(rexpr)
    case TypeCast(arg, _, _) => [n] + Walk(arg)
    case NamedArgExpr(_, arg) => [n] + Walk(arg)
    case ResTarget(_, val, _) => [n] + Walk(val)
    case ColumnRef(fields, _) => [n] + StrNodes(fields)
    case AConst(val, _) => [n] + Walk(val)
    case Other(children) => [n] + WalkSeq(children)
    case _ => [n]
  }

  function WalkSeq(ns: seq<Node>): seq<Node>
    decreases ns, 1
  {
    if ns == [] then [] else Walk(ns[0]) + WalkSeq(ns[1..])
  }

  /** The elements of `s` that satisfy `p`, in order. */
  function Filter(s: seq<Node>, p: Node -> bool): (r: seq<Node>)
    ensures forall x :: x in r <==> x in s && p(x)
    ensures |r| <= |s|
  {
    if s == [] then []
    else (if p(s[0]) then [s[0]] else []) + Filter(s[1..], p)
  }

  /** `astutils.Search`: the nodes of the tree under `root` that satisfy `p`, in walk order. */
  function Search(root: Node, p: Node -> bool): seq<Node>
  {
    Filter(Walk(root), p)
  }

  /** The first element of `s` that is a column reference: a scan from the front. */
  function FirstColumnRefOf(s: seq<Node>): Option<Node>
  {
    if s == [] then None
    else if s[0].ColumnRef? then Some(s[0])
    else FirstColumnRefOf(s[1..])
  }

  /** The scan finds nothing exactly when no element is a column reference, and otherwise the first one. */
  lemma {:induction false} FirstColumnRefOfIsFirst(s: seq<Node>)
    ensures FirstColumnRefOf(s).None? <==> forall k :: 0 <= k < |s| ==> !IsColumnRef(s[k])
    ensures FirstColumnRefOf(s).Some? ==>
              exists k :: 0 <= k < |s| && s[k] == FirstColumnRefOf(s).value && forall j :: 0 <= j < k ==> !IsColumnRef(s[j])
  {
    if s != [] && !s[0].ColumnRef? {
      var rest := s[1..];
      FirstColumnRefOfIsFirst(rest);
      assert forall k :: 1 <= k < |s| ==> s[k] == rest[k - 1];
      if FirstColumnRefOf(rest).Some? {
        var k :| 0 <= k < |rest| && rest[k] == FirstColumnRefOf(rest).value && forall j :: 0 <= j < k ==> !IsColumnRef(rest[j]);
        assert s[k + 1] == FirstColumnRefOf(s).value;
      }
    } else if s != [] {
      assert s[0] == FirstColumnRefOf(s).value;
    }
  }

  /** The first column reference `Filter` keeps is the one the scan finds. */
  lemma {:induction false} FilterColumnRefsHead(s: seq<Node>)
    ensures Filter(s, IsColumnRef) == [] <==> FirstColumnRefOf(s).None?
    ensures Filter(s, IsColumnRef) != [] ==> FirstColumnRefOf(s) == Some(Filter(s, IsColumnRef)[0])
  {
    if s != [] {
      FilterColumnRefsHead(s[1..]);
    }
  }

  predicate IsColumnRef(n: Node)
  {
    n.ColumnRef?
  }
}
