/**
 * The named-parameter normaliser of `internal/sql/rewrite/parameters.go`.
 *
 * `NamedParameters` walks a statement depth-first and rewrites the three
 * surface forms of a named placeholder -- `sqlc.arg(name)`, `@name::type`
 * and `@name` -- into positional `ParamRef` nodes. Distinct names get the
 * ordinals 1, 2, ... in order of first occurrence, every rewritten
 * occurrence is logged as a textual `Edit`, and the ordinal -> name map is
 * returned with the rewritten statement.
 */
module Rewrite {
  import opened Wrappers
  import opened Ast
  import Format

  datatype RawStmt = RawStmt(stmt: Node, stmtLocation: int)

  /** `source.Edit`: replace `oldText` by `newText` at `location`, relative to the statement start. */
  datatype Edit = Edit(location: int, oldText: string, newText: string)

  // ---------------------------------------------------------------------
  // flatten / stringWalker

  /** The state of `stringWalker`: the text collected so far and whether a constant was seen. */
  datatype StringWalker = StringWalker(str: string, isConst: bool)

  function Visit(w: StringWalker, n: Node): StringWalker
  {
    var w1 := if n.AConst? then w.(isConst := true) else w;
    if n.Str? then w1.(str := w1.str + n.str) else w1
  }

  function VisitAll(w: StringWalker, ns: seq<Node>): StringWalker
    decreases |ns|
  {
    if ns == [] then w else VisitAll(Visit(w, ns[0]), ns[1..])
  }

  /** The `String` fragments among `ns`, concatenated in order. */
  function Fragments(ns: seq<Node>): string
  {
    if ns == [] then "" else (if ns[0].Str? then ns[0].str else "") + Fragments(ns[1..])
  }

  /** Whether an `A_Const` node is among `ns`. */
  predicate HasConst(ns: seq<Node>)
  {
    ns != [] && (ns[0].AConst? || HasConst(ns[1..]))
  }

  lemma {:induction false} VisitAllCollects(w: StringWalker, ns: seq<Node>)
    ensures VisitAll(w, ns).str == w.str + Fragments(ns)
    ensures VisitAll(w, ns).isConst <==> w.isConst || HasConst(ns)
    decreases |ns|
  {
    if ns != [] {
      VisitAllCollects(Visit(w, ns[0]), ns[1..]);
    }
  }

  /**
   * `flatten`: the concatenation of every `String` fragment under `root`
   * in walk order, and whether an `A_Const` node occurs under `root`.
   */
  function Flatten(root: Node): (r: (string, bool))
    ensures r.0 == Fragments(Walk(root))
    ensures r.1 <==> HasConst(Walk(root))
  {
    VisitAllCollects(StringWalker("", false), Walk(root));
    var w := VisitAll(StringWalker("", false), Walk(root));
    (w.str, w.isConst)
  }

  /** `sqlc.arg('name')` flattens to the quoted name, flagged as a constant. */
  lemma FlattenQuotedArg(name: string, loc: int)
    ensures Flatten(Other([AConst(Str(name), loc)])) == (name, true)
  {
    var c := AConst(Str(name), loc);
    assert Walk(c) == [c, Str(name)];
    assert WalkSeq([c]) == Walk(c) + WalkSeq([]);
    var ns := Walk(Other([c]));
    assert ns == [Other([c]), c, Str(name)];
    assert HasConst(ns[1..]);
    assert Fragments(ns[2..]) == name;
    assert Fragments(ns[1..]) == name;
  }

  /** `sqlc.arg(name)` flattens to the bare name, not flagged as a constant. */
  lemma FlattenIdentifierArg(name: string, loc: int)
    ensures Flatten(Other([ColumnRef([name], loc)])) == (name, false)
  {
    var c := ColumnRef([name], loc);
    assert StrNodes([name]) == [Str(name)];
    assert Walk(c) == [c, Str(name)];
    assert WalkSeq([c]) == Walk(c) + WalkSeq([]);
    var ns := Walk(Other([c]));
    assert ns == [Other([c]), c, Str(name)];
    assert !HasConst(ns[2..]);
    assert !HasConst(ns[1..]);
    assert Fragments(ns[2..]) == name;
    assert Fragments(ns[1..]) == name;
  }

  // ---------------------------------------------------------------------
  // Recognising the three forms

  /** `astutils.Join`: the parts separated by `sep`. */
  function Join(parts: seq<string>, sep: string): string
  {
    if parts == [] then ""
    else if |parts| == 1 then parts[0]
    else parts[0] + sep + Join(parts[1..], sep)
  }

  /** `named.IsParamFunc`: a call of `sqlc.arg`. */
  predicate IsParamFunc(n: Node)
  {
    n.FuncCall? && n.func == FuncName("sqlc", "arg")
  }

  /** `named.IsParamSign`: an expression whose operator is `@`. */
  predicate IsParamSign(n: Node)
  {
    n.AExpr? && Join(n.name, ".") == "@"
  }

  /** `isNamedParamSignCast`: an `@` expression whose right operand is a type cast. */
  predicate IsNamedParamSignCast(n: Node)
  {
    n.AExpr? && n.rexpr.TypeCast? && Join(n.name, ".") == "@"
  }

  /** Which of the three forms matched; the function form records whether its name was quoted. */
  datatype Form = FuncForm(isConst: bool) | SignCastForm | SignForm

  /** One rewritten occurrence: its form, the flattened name and the node location. */
  datatype Match = Match(form: Form, name: string, location: int)

  /** The match at `n` itself, trying the three forms in the order of the source's switch. */
  function MatchAt(n: Node): (r: Option<Match>)
    ensures r.Some? <==> IsParamFunc(n) || IsParamSign(n)
    ensures r.Some? && r.value.form.SignCastForm? ==> IsNamedParamSignCast(n)
    ensures r.Some? ==> r.value.location == n.location
    // `sqlc.arg(...)`: the argument text, quoted exactly when a constant is among the arguments
    ensures IsParamFunc(n) ==>
              r == Some(Match(FuncForm(HasConst(Walk(Other(n.args)))), Fragments(Walk(Other(n.args))), n.location))
    // `@name::type`: the text of the cast operand
    ensures IsNamedParamSignCast(n) ==> r == Some(Match(SignCastForm, Fragments(Walk(n.rexpr.arg)), n.location))
    // `@name`: the text of the right operand
    ensures IsParamSign(n) && !n.rexpr.TypeCast? ==> r == Some(Match(SignForm, Fragments(Walk(n.rexpr)), n.location))
  {
    if IsParamFunc(n) then
      var (name, isConst) := Flatten(Other(n.args));
      Some(Match(FuncForm(isConst), name, n.location))
    else if IsNamedParamSignCast(n) then
      Some(Match(SignCastForm, Flatten(n.rexpr.arg).0, n.location))
    else if IsParamSign(n) then
      Some(Match(SignForm, Flatten(n.rexpr).0, n.location))
    else
      None
  }

  /**
   * The occurrences the rewrite handles, in traversal order. A matched
   * node is not descended into, so markers nested inside it are not
   * occurrences of their own.
   */
  function Matches(n: Node): seq<Match>
    decreases n, 0
  {
    if MatchAt(n).Some? then [MatchAt(n).value]
    else
      match n
      case FuncCall(_, args, _) => MatchesSeq(args)
      case AExpr(_, lexpr, rexpr, _) => Matches(lexpr) + Matches(rexpr)
      case TypeCast(arg, _, _) => Matches(arg)
      case NamedArgExpr(_, arg) => Matches(arg)
      case ResTarget(_, val, _) => Matches(val)
      case AConst(val, _) => Matches(val)
      case Other(children) => MatchesSeq(children)
      case Nil => []
      case ColumnRef(_, _) => []
      case ParamRef(_, _) => []
      case Str(_) => []
      case Integer(_) => []
  }

  function MatchesSeq(ns: seq<Node>): seq<Match>
    decreases ns, 1
  {
    if ns == [] then [] else Matches(ns[0]) + MatchesSeq(ns[1..])
  }

  function Names(ms: seq<Match>): (r: seq<string>)
    ensures |r| == |ms|
    ensures forall i :: 0 <= i < |ms| ==> r[i] == ms[i].name
  {
    if ms == [] then [] else [ms[0].name] + Names(ms[1..])
  }

  lemma {:induction false} NamesConcat(a: seq<Match>, b: seq<Match>)
    ensures Names(a + b) == Names(a) + Names(b)
  {
    if a == [] {
      assert a + b == b;
    } else {
      assert (a + b)[0] == a[0] && (a + b)[1..] == a[1..] + b;
      NamesConcat(a[1..], b);
    }
  }

  /** The text a match replaced: `sqlc.arg('name')`, `sqlc.arg(name)` or `@name`. */
  function OldText(m: Match): string
  {
    match m.form
    case FuncForm(true) => "sqlc.arg('" + m.name + "')"
    case FuncForm(false) => "sqlc.arg(" + m.name + ")"
    case _ => "@" + m.name
  }

  /** The replacement text `$n` of ordinal `n`. */
  function Placeholder(ordinal: nat): string
  {
    "$" + Format.Decimal(ordinal)
  }

  // ---------------------------------------------------------------------
  // The rewrite

  /**
   * What the traversal threads: the name -> ordinal map, the last ordinal
   * handed out and the edits; `named` is the ordinal -> name map, kept up to
   * date as each new name is numbered rather than built by a final pass over
   * `args` (`NamedInvertsArgs` shows the two agree).
   */
  datatype State = State(args: map<string, nat>, argn: nat, edits: seq<Edit>, named: map<int, string>)

  /**
   * Handles one match: reuses the ordinal of a known name or hands out the
   * next one, and appends the edit for the occurrence.
   */
  function Record(st: State, m: Match, stmtLocation: int): (r: (nat, State))
    ensures m.name in r.1.args && r.0 == r.1.args[m.name]
    ensures m.name in st.args ==> r.1.args == st.args && r.1.argn == st.argn && r.1.named == st.named
    ensures m.name !in st.args ==>
              r.1.args == st.args[m.name := st.argn + 1] && r.1.argn == st.argn + 1
              && r.1.named == st.named[st.argn + 1 := m.name]
    ensures r.1.edits == st.edits + [Edit(m.location - stmtLocation, OldText(m), Placeholder(r.0))]
  {
    var st1 := if m.name in st.args then st
               else st.(args := st.args[m.name := st.argn + 1], argn := st.argn + 1,
                        named := st.named[st.argn + 1 := m.name]);
    var num := st1.args[m.name];
    (num, st1.(edits := st1.edits + [Edit(m.location - stmtLocation, OldText(m), Placeholder(num))]))
  }

  /** The node a match is replaced by; the sign-cast form keeps its cast around the placeholder. */
  function Replacement(n: Node, m: Match, num: int): (r: Node)
    requires MatchAt(n) == Some(m)
    ensures r.ParamRef? || (r.TypeCast? && r.arg.ParamRef?)
  {
    if m.form.SignCastForm? then TypeCast(ParamRef(num, n.location), n.rexpr.typeName, n.rexpr.location)
    else ParamRef(num, n.location)
  }

  /** The `astutils.Apply` pass: rewrites every match and rebuilds the rest of the tree around it. */
  function RewriteNode(n: Node, stmtLocation: int, st: State): (r: (Node, State))
    ensures |r.1.edits| == |st.edits| + |Matches(n)|
    ensures r.1.argn >= st.argn
    decreases n, 0
  {
    if MatchAt(n).Some? then
      var m := MatchAt(n).value;
      var (num, st1) := Record(st, m, stmtLocation);
      (Replacement(n, m, num), st1)
    else
      match n
      case FuncCall(func, args, location) =>
        var (args1, st1) := RewriteSeq(args, stmtLocation, st);
        (FuncCall(func, args1, location), st1)
      case AExpr(name, lexpr, rexpr, location) =>
        var (lexpr1, st1) := RewriteNode(lexpr, stmtLocation, st);
        var (rexpr1, st2) := RewriteNode(rexpr, stmtLocation, st1);
        (AExpr(name, lexpr1, rexpr1, location), st2)
      case TypeCast(arg, typeName, location) =>
        var (arg1, st1) := RewriteNode(arg, stmtLocation, st);
        (TypeCast(arg1, typeName, location), st1)
      case NamedArgExpr(argName, arg) =>
        var (arg1, st1) := RewriteNode(arg, stmtLocation, st);
        (NamedArgExpr(argName, arg1), st1)
      case ResTarget(targetName, val, location) =>
        var (val1, st1) := RewriteNode(val, stmtLocation, st);
        (ResTarget(targetName, val1, location), st1)
      case AConst(val, location) =>
        var (val1, st1) := RewriteNode(val, stmtLocation, st);
        (AConst(val1, location), st1)
      case Other(children) =>
        var (children1, st1) := RewriteSeq(children, stmtLocation, st);
        (Other(children1), st1)
      case Nil => (n, st)
      case ColumnRef(_, _) => (n, st)
      case ParamRef(_, _) => (n, st)
      case Str(_) => (n, st)
      case Integer(_) => (n, st)
  }

  function RewriteSeq(ns: seq<Node>, stmtLocation: int, st: State): (r: (seq<Node>, State))
    ensures |r.0| == |ns|
    ensures |r.1.edits| == |st.edits| + |MatchesSeq(ns)|
    ensures r.1.argn >= st.argn
    decreases ns, 1
  {
    if ns == [] then (ns, st)
    else
      var (head, st1) := RewriteNode(ns[0], stmtLocation, st);
      var (tail, st2) := RewriteSeq(ns[1..], stmtLocation, st1);
      ([head] + tail, st2)
  }

  /** The key-value inverse of an injective map. */
  function Invert(m: map<string, nat>): (r: map<int, string>)
    requires Injective(m)
    ensures r.Keys == m.Values
    ensures forall k :: k in m ==> r[m[k]] == k
  {
    map k | k in m :: m[k] := k
  }

  predicate Injective(m: map<string, nat>)
  {
    forall a, b :: a in m && b in m && m[a] == m[b] ==> a == b
  }

  /** True iff no named-placeholder form occurs anywhere under `n`, the condition of the early exit. */
  predicate NoNamedForms(n: Node)
  {
    |Search(n, IsParamFunc)| + |Search(n, IsParamSign)| == 0
  }

  /**
   * `NamedParameters`. The result is the rewritten statement, the
   * ordinal -> name map and the edits. Ordinal k names the k-th distinct
   * name in traversal order, there is one edit per occurrence, every
   * occurrence is replaced by the placeholder of its name's ordinal with the
   * rest of the tree kept, and no named form is left in the rewritten statement.
   */
  function NamedParameters(raw: RawStmt): (r: (RawStmt, map<int, string>, seq<Edit>))
    ensures var ms := Matches(raw.stmt);
            var d := Dedup(Names(ms));
            && r.1 == OrdinalNames(d)
            && AllNamed(ms, d)
            && r.2 == EditsFor(ms, d, raw.stmtLocation)
            && r.0.stmt == Substituted(raw.stmt, d)
    ensures NoNamedForms(r.0.stmt)
    ensures r.0.stmtLocation == raw.stmtLocation
    ensures NoNamedForms(raw.stmt) ==> r == (raw, map[], [])
  {
    if NoNamedForms(raw.stmt) then
      NoNamedFormsIffNoMatches(raw.stmt);
      SubstitutedNothing(raw.stmt, []);
      (raw, map[], [])
    else
      var st0 := State(map[], 0, [], map[]);
      var (stmt1, st1) := RewriteNode(raw.stmt, raw.stmtLocation, st0);
      assert Dedup([]) == [] && [] + Names(Matches(raw.stmt)) == Names(Matches(raw.stmt));
      RewriteTracks(raw.stmt, raw.stmtLocation, st0, []);
      RewriteShape(raw.stmt, raw.stmtLocation, st0, []);
      NoNamedFormsIffNoMatches(stmt1);
      (RawStmt(stmt1, raw.stmtLocation), st1.named, st1.edits)
  }

  // ---------------------------------------------------------------------
  // Reference semantics: ordinals are positions in the list of distinct names

  predicate NoDup(s: seq<string>)
  {
    forall i, j :: 0 <= i < j < |s| ==> s[i] != s[j]
  }

  /** The distinct names of `s`, each at the position of its first occurrence. */
  function Dedup(s: seq<string>): (d: seq<string>)
    ensures NoDup(d)
    decreases |s|
  {
    if s == [] then []
    else
      var d0 := Dedup(s[..|s| - 1]);
      var x := s[|s| - 1];
      if x in d0 then d0 else d0 + [x]
  }

  /** Every name occurs among the distinct names, and nothing else does. */
  lemma {:induction false} DedupMembers(s: seq<string>)
    ensures forall x :: x in Dedup(s) <==> x in s
    decreases |s|
  {
    if s != [] {
      var s0 := s[..|s| - 1];
      DedupMembers(s0);
      assert s == s0 + [s[|s| - 1]];
      assert forall y :: y in s <==> y in s0 || y == s[|s| - 1];
    }
  }

  lemma DedupSnoc(s: seq<string>, x: string)
    ensures Dedup(s + [x]) == if x in Dedup(s) then Dedup(s) else Dedup(s) + [x]
  {
    assert (s + [x])[..|s|] == s;
  }

  /** Appending names never reorders the distinct names seen so far. */
  lemma {:induction false} DedupPrefix(s: seq<string>, t: seq<string>)
    ensures Dedup(s) <= Dedup(s + t)
    decreases |t|
  {
    if t != [] {
      var t0 := t[..|t| - 1];
      DedupPrefix(s, t0);
      assert s + t == (s + t0) + [t[|t| - 1]];
      DedupSnoc(s + t0, t[|t| - 1]);
      var a, b, c := Dedup(s), Dedup(s + t0), Dedup(s + t);
      assert b <= c;
      assert c[..|a|] == b[..|a|];
    } else {
      assert s + t == s;
    }
  }

  /** The position of the first occurrence of `x` in `s`. */
  function FirstIndex(s: seq<string>, x: string): (k: nat)
    requires x in s
    ensures k < |s| && s[k] == x && x !in s[..k]
  {
    if s[0] == x then 0
    else
      var k := 1 + FirstIndex(s[1..], x);
      assert s[..k] == [s[0]] + s[1..][..k - 1];
      k
  }

  lemma FirstIndexUnique(s: seq<string>, x: string, k: nat)
    requires k < |s| && s[k] == x && x !in s[..k]
    ensures FirstIndex(s, x) == k
  {
  }

  /** Appending a name leaves the first occurrence of an earlier name where it was. */
  lemma FirstIndexSnoc(s: seq<string>, x: string, y: string)
    requires y in s
    ensures y in s + [x] && FirstIndex(s + [x], y) == FirstIndex(s, y)
  {
    var k := FirstIndex(s, y);
    assert (s + [x])[k] == y && (s + [x])[..k] == s[..k];
    FirstIndexUnique(s + [x], y, k);
  }

  /** A name new to `s` first occurs where it is appended. */
  lemma FirstIndexNew(s: seq<string>, x: string)
    requires x !in s
    ensures x in s + [x] && FirstIndex(s + [x], x) == |s|
  {
    assert (s + [x])[|s|] == x && (s + [x])[..|s|] == s;
    FirstIndexUnique(s + [x], x, |s|);
  }

  /**
   * Distinct names are listed in order of first occurrence: an earlier
   * position always holds a name that appeared earlier.
   */
  lemma {:induction false} DedupOrderAt(s: seq<string>, i: nat, j: nat)
    requires i < j < |Dedup(s)|
    ensures Dedup(s)[i] in s && Dedup(s)[j] in s && FirstIndex(s, Dedup(s)[i]) < FirstIndex(s, Dedup(s)[j])
    decreases |s|
  {
    var s0 := s[..|s| - 1];
    var x := s[|s| - 1];
    assert s == s0 + [x];
    DedupSnoc(s0, x);
    DedupMembers(s0);
    var d0 := Dedup(s0);
    var d := Dedup(s);
    assert d[i] == d0[i] && d0[i] in s0;
    FirstIndexSnoc(s0, x, d[i]);
    if j < |d0| {
      DedupOrderAt(s0, i, j);
      assert d[j] == d0[j];
      FirstIndexSnoc(s0, x, d[j]);
    } else {
      assert d[j] == x && x !in s0;
      FirstIndexNew(s0, x);
    }
  }

  /** The ordinal of `x`: one plus its position among the distinct names. */
  function Ordinal(d: seq<string>, x: string): (k: nat)
    requires x in d
    ensures 1 <= k <= |d| && d[k - 1] == x
  {
    if d[0] == x then 1 else 1 + Ordinal(d[1..], x)
  }

  lemma OrdinalOfIndex(d: seq<string>, i: nat)
    requires NoDup(d) && i < |d|
    ensures Ordinal(d, d[i]) == i + 1
  {
  }

  /** Ordinal k names the k-th distinct name. */
  function OrdinalNames(d: seq<string>): (r: map<int, string>)
    ensures forall k :: k in r <==> 1 <= k <= |d|
    ensures forall i :: 0 <= i < |d| ==> r[i + 1] == d[i]
  {
    if d == [] then map[]
    else OrdinalNames(d[..|d| - 1])[|d| := d[|d| - 1]]
  }

  predicate AllNamed(ms: seq<Match>, d: seq<string>)
  {
    forall i :: 0 <= i < |ms| ==> ms[i].name in d
  }

  /** The edit each match is owed, given the distinct names in order. */
  function EditsFor(ms: seq<Match>, d: seq<string>, stmtLocation: int): (r: seq<Edit>)
    requires AllNamed(ms, d)
    ensures |r| == |ms|
  {
    if ms == [] then []
    else
      [Edit(ms[0].location - stmtLocation, OldText(ms[0]), Placeholder(Ordinal(d, ms[0].name)))]
      + EditsFor(ms[1..], d, stmtLocation)
  }

  lemma AllNamedSplit(a: seq<Match>, b: seq<Match>, d: seq<string>)
    requires AllNamed(a + b, d)
    ensures AllNamed(a, d) && AllNamed(b, d)
  {
    forall i | 0 <= i < |a| ensures a[i].name in d { assert (a + b)[i] == a[i]; }
    forall i | 0 <= i < |b| ensures b[i].name in d { assert (a + b)[|a| + i] == b[i]; }
  }

  /**
   * The statement the rewrite should produce, given the distinct names in
   * order: each occurrence is replaced by the placeholder of its name's
   * ordinal, and every other node is rebuilt around its substituted children.
   */
  function Substituted(n: Node, d: seq<string>): Node
    requires AllNamed(Matches(n), d)
    decreases n, 0
  {
    if MatchAt(n).Some? then
      var m := MatchAt(n).value;
      assert Matches(n)[0] == m;
      Replacement(n, m, Ordinal(d, m.name))
    else
      match n
      case FuncCall(func, args, location) => FuncCall(func, SubstitutedSeq(args, d), location)
      case AExpr(name, lexpr, rexpr, location) =>
        AllNamedSplit(Matches(lexpr), Matches(rexpr), d);
        AExpr(name, Substituted(lexpr, d), Substituted(rexpr, d), location)
      case TypeCast(arg, typeName, location) => TypeCast(Substituted(arg, d), typeName, location)
      case NamedArgExpr(argName, arg) => NamedArgExpr(argName, Substituted(arg, d))
      case ResTarget(targetName, val, location) => ResTarget(targetName, Substituted(val, d), location)
      case AConst(val, location) => AConst(Substituted(val, d), location)
      case Other(children) => Other(SubstitutedSeq(children, d))
      case Nil => n
      case ColumnRef(_, _) => n
      case ParamRef(_, _) => n
      case Str(_) => n
      case Integer(_) => n
  }

  function SubstitutedSeq(ns: seq<Node>, d: seq<string>): (r: seq<Node>)
    requires AllNamed(MatchesSeq(ns), d)
    ensures |r| == |ns|
    decreases ns, 1
  {
    if ns == [] then []
    else
      AllNamedSplit(Matches(ns[0]), MatchesSeq(ns[1..]), d);
      [Substituted(ns[0], d)] + SubstitutedSeq(ns[1..], d)
  }

  /** Names that become known later do not move the placeholders already chosen. */
  lemma {:induction false} SubstitutedStable(n: Node, d: seq<string>, d1: seq<string>)
    requires AllNamed(Matches(n), d) && d <= d1 && NoDup(d1)
    ensures AllNamed(Matches(n), d1)
    ensures Substituted(n, d) == Substituted(n, d1)
    decreases n, 0
  {
    assert forall x :: x in d ==> x in d1;
    if MatchAt(n).Some? {
      assert Matches(n)[0] == MatchAt(n).value;
      OrdinalStable(d, d1, MatchAt(n).value.name);
    } else {
      match n
      case FuncCall(_, args, _) => SubstitutedSeqStable(args, d, d1);
      case AExpr(_, lexpr, rexpr, _) =>
        AllNamedSplit(Matches(lexpr), Matches(rexpr), d);
        SubstitutedStable(lexpr, d, d1);
        SubstitutedStable(rexpr, d, d1);
      case TypeCast(arg, _, _) => SubstitutedStable(arg, d, d1);
      case NamedArgExpr(_, arg) => SubstitutedStable(arg, d, d1);
      case ResTarget(_, val, _) => SubstitutedStable(val, d, d1);
      case AConst(val, _) => SubstitutedStable(val, d, d1);
      case Other(children) => SubstitutedSeqStable(children, d, d1);
      case _ =>
    }
  }

  lemma {:induction false} SubstitutedSeqStable(ns: seq<Node>, d: seq<string>, d1: seq<string>)
    requires AllNamed(MatchesSeq(ns), d) && d <= d1 && NoDup(d1)
    ensures AllNamed(MatchesSeq(ns), d1)
    ensures SubstitutedSeq(ns, d) == SubstitutedSeq(ns, d1)
    decreases ns, 1
  {
    assert forall x :: x in d ==> x in d1;
    if ns != [] {
      AllNamedSplit(Matches(ns[0]), MatchesSeq(ns[1..]), d);
      SubstitutedStable(ns[0], d, d1);
      SubstitutedSeqStable(ns[1..], d, d1);
    }
  }

  /** A tree without occurrences is left as it is. */
  lemma {:induction false} SubstitutedNothing(n: Node, d: seq<string>)
    requires Matches(n) == []
    ensures Substituted(n, d) == n
    decreases n, 0
  {
    if MatchAt(n).None? {
      match n
      case FuncCall(_, args, _) => SubstitutedSeqNothing(args, d);
      case AExpr(_, lexpr, rexpr, _) =>
        SubstitutedNothing(lexpr, d);
        SubstitutedNothing(rexpr, d);
      case TypeCast(arg, _, _) => SubstitutedNothing(arg, d);
      case NamedArgExpr(_, arg) => SubstitutedNothing(arg, d);
      case ResTarget(_, val, _) => SubstitutedNothing(val, d);
      case AConst(val, _) => SubstitutedNothing(val, d);
      case Other(children) => SubstitutedSeqNothing(children, d);
      case _ =>
    }
  }

  lemma {:induction false} SubstitutedSeqNothing(ns: seq<Node>, d: seq<string>)
    requires MatchesSeq(ns) == []
    ensures SubstitutedSeq(ns, d) == ns
    decreases ns, 1
  {
    if ns != [] {
      SubstitutedNothing(ns[0], d);
      SubstitutedSeqNothing(ns[1..], d);
      assert ns == [ns[0]] + ns[1..];
    }
  }

  // ---------------------------------------------------------------------
  // The rewrite agrees with the reference semantics

  /** `st` holds exactly the names of `d`, numbered by position. */
  ghost predicate Tracks(st: State, d: seq<string>)
  {
    && NoDup(d)
    && st.argn == |d|
    && (forall x :: x in st.args <==> x in d)
    && (forall i :: 0 <= i < |d| ==> d[i] in st.args && st.args[d[i]] == i + 1)
    && st.named == OrdinalNames(d)
  }

  /**
   * Going from `st` to `st1` handled the matches `ms`, having seen the names
   * `seen` before: `st1` tracks the distinct names of `seen + Names(ms)` and
   * gained exactly the edits owed to `ms`.
   */
  ghost predicate Handled(st: State, st1: State, seen: seq<string>, ms: seq<Match>, stmtLocation: int)
  {
    var d := Dedup(seen + Names(ms));
    && Tracks(st1, d)
    && AllNamed(ms, d)
    && st1.edits == st.edits + EditsFor(ms, d, stmtLocation)
  }

  lemma OrdinalStable(d: seq<string>, d1: seq<string>, x: string)
    requires d <= d1 && NoDup(d1) && x in d
    ensures Ordinal(d, x) == Ordinal(d1, x)
  {
    var k := Ordinal(d, x);
    assert d1[k - 1] == x;
    OrdinalOfIndex(d1, k - 1);
    OrdinalOfIndex(d, k - 1);
  }

  lemma {:induction false} EditsForAt(ms: seq<Match>, d: seq<string>, stmtLocation: int, i: nat)
    requires AllNamed(ms, d) && i < |ms|
    ensures EditsFor(ms, d, stmtLocation)[i]
            == Edit(ms[i].location - stmtLocation, OldText(ms[i]), Placeholder(Ordinal(d, ms[i].name)))
  {
    if i > 0 {
      assert AllNamed(ms[1..], d);
      EditsForAt(ms[1..], d, stmtLocation, i - 1);
    }
  }

  lemma {:induction false} EditsForStable(ms: seq<Match>, d: seq<string>, d1: seq<string>, stmtLocation: int)
    requires AllNamed(ms, d) && d <= d1 && NoDup(d1)
    ensures AllNamed(ms, d1)
    ensures EditsFor(ms, d, stmtLocation) == EditsFor(ms, d1, stmtLocation)
  {
    if ms != [] {
      OrdinalStable(d, d1, ms[0].name);
      assert AllNamed(ms[1..], d);
      EditsForStable(ms[1..], d, d1, stmtLocation);
    }
  }

  lemma {:induction false} EditsForConcat(a: seq<Match>, b: seq<Match>, d: seq<string>, stmtLocation: int)
    requires AllNamed(a, d) && AllNamed(b, d)
    ensures AllNamed(a + b, d)
    ensures EditsFor(a + b, d, stmtLocation) == EditsFor(a, d, stmtLocation) + EditsFor(b, d, stmtLocation)
  {
    var ab := a + b;
    assert AllNamed(ab, d) by {
      forall i | 0 <= i < |ab| ensures ab[i].name in d {
        if i < |a| { assert ab[i] == a[i]; } else { assert ab[i] == b[i - |a|]; }
      }
    }
    if a == [] {
      assert ab == b;
    } else {
      assert ab[0] == a[0] && ab[1..] == a[1..] + b;
      assert AllNamed(a[1..], d);
      EditsForConcat(a[1..], b, d, stmtLocation);
      var e := [Edit(a[0].location - stmtLocation, OldText(a[0]), Placeholder(Ordinal(d, a[0].name)))];
      calc {
        EditsFor(ab, d, stmtLocation);
        e + EditsFor(a[1..] + b, d, stmtLocation);
        e + (EditsFor(a[1..], d, stmtLocation) + EditsFor(b, d, stmtLocation));
        (e + EditsFor(a[1..], d, stmtLocation)) + EditsFor(b, d, stmtLocation);
        EditsFor(a, d, stmtLocation) + EditsFor(b, d, stmtLocation);
      }
    }
  }

  lemma EditsChain(st: State, st1: State, st2: State, a: seq<Match>, b: seq<Match>, d: seq<string>, stmtLocation: int)
    requires AllNamed(a, d) && st1.edits == st.edits + EditsFor(a, d, stmtLocation)
    requires AllNamed(b, d) && st2.edits == st1.edits + EditsFor(b, d, stmtLocation)
    ensures AllNamed(a + b, d) && st2.edits == st.edits + EditsFor(a + b, d, stmtLocation)
  {
    EditsForConcat(a, b, d, stmtLocation);
  }

  lemma SeenAssoc(seen: seq<string>, a: seq<Match>, b: seq<Match>)
    ensures seen + Names(a + b) == (seen + Names(a)) + Names(b)
  {
    NamesConcat(a, b);
  }

  /** Two consecutive stretches of the traversal compose. */
  lemma HandledChain(st: State, st1: State, st2: State, seen: seq<string>, a: seq<Match>, b: seq<Match>, stmtLocation: int)
    requires Handled(st, st1, seen, a, stmtLocation)
    requires Handled(st1, st2, seen + Names(a), b, stmtLocation)
    ensures Handled(st, st2, seen, a + b, stmtLocation)
  {
    SeenAssoc(seen, a, b);
    var s1 := seen + Names(a);
    DedupPrefix(s1, Names(b));
    EditsForStable(a, Dedup(s1), Dedup(s1 + Names(b)), stmtLocation);
    EditsChain(st, st1, st2, a, b, Dedup(s1 + Names(b)), stmtLocation);
  }

  /** `Handled` read at equal arguments; keeps callers from unfolding the predicate. */
  lemma HandledAs(st: State, st1: State, st1': State, seen: seq<string>, ms: seq<Match>, ms': seq<Match>, stmtLocation: int)
    requires Handled(st, st1, seen, ms, stmtLocation) && st1' == st1 && ms' == ms
    ensures Handled(st, st1', seen, ms', stmtLocation)
  {
  }

  lemma HandledNothing(st: State, seen: seq<string>, stmtLocation: int)
    requires Tracks(st, Dedup(seen))
    ensures Handled(st, st, seen, [], stmtLocation)
  {
    assert seen + Names([]) == seen;
  }

  lemma OrdinalNamesSnoc(d: seq<string>, x: string)
    ensures OrdinalNames(d + [x]) == OrdinalNames(d)[|d| + 1 := x]
  {
    assert (d + [x])[..|d|] == d;
  }

  /** Numbering a new name next keeps the state in step with the distinct names. */
  lemma TracksExtend(st: State, st1: State, d: seq<string>, x: string)
    requires Tracks(st, d) && x !in d
    requires st1.args == st.args[x := |d| + 1] && st1.argn == |d| + 1 && st1.named == st.named[|d| + 1 := x]
    ensures Tracks(st1, d + [x])
  {
    OrdinalNamesSnoc(d, x);
    NoDupSnoc(d, x);
    ArgsExtend(st.args, d, x);
  }

  lemma NoDupSnoc(d: seq<string>, x: string)
    requires NoDup(d) && x !in d
    ensures NoDup(d + [x])
  {
    var d1 := d + [x];
    forall i, j | 0 <= i < j < |d1| ensures d1[i] != d1[j] {
      if j < |d| { assert d1[i] == d[i] && d1[j] == d[j]; } else { assert d1[i] == d[i] && d[i] in d; }
    }
  }

  /** Mapping a new name to the next ordinal keeps the name map in step with the names. */
  lemma ArgsExtend(args: map<string, nat>, d: seq<string>, x: string)
    requires x !in d
    requires forall y :: y in args <==> y in d
    requires forall i :: 0 <= i < |d| ==> d[i] in args && args[d[i]] == i + 1
    ensures var d1, args1 := d + [x], args[x := |d| + 1];
            && (forall y :: y in args1 <==> y in d1)
            && (forall i :: 0 <= i < |d1| ==> d1[i] in args1 && args1[d1[i]] == i + 1)
  {
    var d1, args1 := d + [x], args[x := |d| + 1];
    forall i | 0 <= i < |d1| ensures d1[i] in args1 && args1[d1[i]] == i + 1 {
      if i < |d| { assert d1[i] == d[i] && d[i] != x; }
    }
    forall y ensures y in args1 <==> y in d1 {
      assert y in d1 <==> y in d || y == x;
    }
  }

  lemma TracksRecord(st: State, d: seq<string>, m: Match, stmtLocation: int)
    requires Tracks(st, d)
    ensures Tracks(Record(st, m, stmtLocation).1, if m.name in d then d else d + [m.name])
  {
    var st1 := Record(st, m, stmtLocation).1;
    if m.name !in d {
      TracksExtend(st, st1, d, m.name);
    } else {
      assert st1.args == st.args && st1.argn == st.argn && st1.named == st.named;
    }
  }


  lemma ArgsOrdinal(st: State, d: seq<string>, x: string)
    requires Tracks(st, d) && x in d
    ensures x in st.args && st.args[x] == Ordinal(d, x)
  {
    var k := Ordinal(d, x);
    assert st.args[d[k - 1]] == k;
  }

  lemma EditsRecorded(st: State, m: Match, d: seq<string>, stmtLocation: int)
    requires Tracks(Record(st, m, stmtLocation).1, d) && m.name in d
    ensures AllNamed([m], d)
    ensures Record(st, m, stmtLocation).1.edits == st.edits + EditsFor([m], d, stmtLocation)
  {
    ArgsOrdinal(Record(st, m, stmtLocation).1, d, m.name);
  }

  lemma HandledOne(st: State, seen: seq<string>, m: Match, stmtLocation: int)
    requires Tracks(st, Dedup(seen))
    ensures Handled(st, Record(st, m, stmtLocation).1, seen, [m], stmtLocation)
  {
    var x := m.name;
    assert Names([m]) == [x];
    DedupSnoc(seen, x);
    TracksRecord(st, Dedup(seen), m, stmtLocation);
    EditsRecorded(st, m, Dedup(seen + [x]), stmtLocation);
  }

  /** The rewrite of one node handles exactly `Matches(n)` and leaves no named form behind. */
  lemma {:induction false} RewriteTracks(n: Node, stmtLocation: int, st: State, seen: seq<string>)
    requires Tracks(st, Dedup(seen))
    ensures Handled(st, RewriteNode(n, stmtLocation, st).1, seen, Matches(n), stmtLocation)
    ensures Matches(RewriteNode(n, stmtLocation, st).0) == []
    decreases n, 2
  {
    if MatchAt(n).Some? {
      RewriteTracksMatch(n, stmtLocation, st, seen);
    } else if n.AExpr? {
      RewriteTracksAExpr(n, stmtLocation, st, seen);
    } else if n.FuncCall? {
      RewriteTracksFuncCall(n, stmtLocation, st, seen);
    } else if n.Other? {
      RewriteTracksOther(n, stmtLocation, st, seen);
    } else if n.TypeCast? {
      RewriteTracksTypeCast(n, stmtLocation, st, seen);
    } else if n.NamedArgExpr? {
      RewriteTracksNamedArg(n, stmtLocation, st, seen);
    } else if n.ResTarget? {
      RewriteTracksResTarget(n, stmtLocation, st, seen);
    } else if n.AConst? {
      RewriteTracksAConst(n, stmtLocation, st, seen);
    } else {
      RewriteTracksLeaf(n, stmtLocation, st, seen);
    }
  }

  lemma RewriteTracksMatch(n: Node, stmtLocation: int, st: State, seen: seq<string>)
    requires Tracks(st, Dedup(seen))
    requires MatchAt(n).Some?
    ensures Handled(st, RewriteNode(n, stmtLocation, st).1, seen, Matches(n), stmtLocation)
    ensures Matches(RewriteNode(n, stmtLocation, st).0) == []
  {
    var m := MatchAt(n).value;
    var (num, st1) := Record(st, m, stmtLocation);
    assert RewriteNode(n, stmtLocation, st) == (Replacement(n, m, num), st1);
    HandledOne(st, seen, m, stmtLocation);
    HandledAs(st, st1, RewriteNode(n, stmtLocation, st).1, seen, [m], Matches(n), stmtLocation);
    ReplacementInert(n, m, num);
  }

  /** A node that is neither a call nor an expression is never itself an occurrence. */
  lemma MatchesOther(children: seq<Node>)
    ensures MatchAt(Other(children)).None?
    ensures Matches(Other(children)) == MatchesSeq(children)
  {
    assert !IsParamFunc(Other(children)) && !IsParamSign(Other(children));
  }

  /** A node with a single child is never itself an occurrence; its occurrences are its child's. */
  lemma MatchesWrapped(n: Node)
    requires n.TypeCast? || n.NamedArgExpr? || n.ResTarget? || n.AConst?
    ensures MatchAt(n).None?
    ensures Matches(n) == Matches(if n.TypeCast? || n.NamedArgExpr? then n.arg else n.val)
  {
    assert !IsParamFunc(n) && !IsParamSign(n);
  }

  /** The node a match is replaced by holds no further occurrence. */
  lemma ReplacementInert(n: Node, m: Match, num: int)
    requires MatchAt(n) == Some(m)
    ensures Matches(Replacement(n, m, num)) == []
  {
    var p := ParamRef(num, n.location);
    assert MatchAt(p).None? && Matches(p) == [];
    if m.form.SignCastForm? {
      var c := TypeCast(p, n.rexpr.typeName, n.rexpr.location);
      assert MatchAt(c).None?;
      assert Matches(c) == Matches(p);
    }
  }

  lemma RewriteTracksLeaf(n: Node, stmtLocation: int, st: State, seen: seq<string>)
    requires Tracks(st, Dedup(seen))
    requires n.Nil? || n.ColumnRef? || n.ParamRef? || n.Str? || n.Integer?
    ensures Handled(st, RewriteNode(n, stmtLocation, st).1, seen, Matches(n), stmtLocation)
    ensures Matches(RewriteNode(n, stmtLocation, st).0) == []
  {
    assert MatchAt(n).None?;
    assert RewriteNode(n, stmtLocation, st) == (n, st);
    HandledNothing(st, seen, stmtLocation);
    HandledAs(st, st, RewriteNode(n, stmtLocation, st).1, seen, [], Matches(n), stmtLocation);
  }

  lemma {:induction false} RewriteTracksTypeCast(n: Node, stmtLocation: int, st: State, seen: seq<string>)
    requires Tracks(st, Dedup(seen))
    requires n.TypeCast?
    ensures Handled(st, RewriteNode(n, stmtLocation, st).1, seen, Matches(n), stmtLocation)
    ensures Matches(RewriteNode(n, stmtLocation, st).0) == []
    decreases n, 1
  {
    var (c1, st1) := RewriteNode(n.arg, stmtLocation, st);
    var n1 := TypeCast(c1, n.typeName, n.location);
    MatchesWrapped(n);
    MatchesWrapped(n1);
    assert RewriteNode(n, stmtLocation, st) == (n1, st1);
    RewriteTracks(n.arg, stmtLocation, st, seen);
    HandledAs(st, st1, RewriteNode(n, stmtLocation, st).1, seen, Matches(n.arg), Matches(n), stmtLocation);
  }

  lemma {:induction false} RewriteTracksNamedArg(n: Node, stmtLocation: int, st: State, seen: seq<string>)
    requires Tracks(st, Dedup(seen))
    requires n.NamedArgExpr?
    ensures Handled(st, RewriteNode(n, stmtLocation, st).1, seen, Matches(n), stmtLocation)
    ensures Matches(RewriteNode(n, stmtLocation, st).0) == []
    decreases n, 1
  {
    var (c1, st1) := RewriteNode(n.arg, stmtLocation, st);
    var n1 := NamedArgExpr(n.argName, c1);
    MatchesWrapped(n);
    MatchesWrapped(n1);
    assert RewriteNode(n, stmtLocation, st) == (n1, st1);
    RewriteTracks(n.arg, stmtLocation, st, seen);
    HandledAs(st, st1, RewriteNode(n, stmtLocation, st).1, seen, Matches(n.arg), Matches(n), stmtLocation);
  }

  lemma {:induction false} RewriteTracksResTarget(n: Node, stmtLocation: int, st: State, seen: seq<string>)
    requires Tracks(st, Dedup(seen))
    requires n.ResTarget?
    ensures Handled(st, RewriteNode(n, stmtLocation, st).1, seen, Matches(n), stmtLocation)
    ensures Matches(RewriteNode(n, stmtLocation, st).0) == []
    decreases n, 1
  {
    var (c1, st1) := RewriteNode(n.val, stmtLocation, st);
    var n1 := ResTarget(n.targetName, c1, n.location);
    MatchesWrapped(n);
    MatchesWrapped(n1);
    assert RewriteNode(n, stmtLocation, st) == (n1, st1);
    RewriteTracks(n.val, stmtLocation, st, seen);
    HandledAs(st, st1, RewriteNode(n, stmtLocation, st).1, seen, Matches(n.val), Matches(n), stmtLocation);
  }

  lemma {:induction false} RewriteTracksAConst(n: Node, stmtLocation: int, st: State, seen: seq<string>)
    requires Tracks(st, Dedup(seen))
    requires n.AConst?
    ensures Handled(st, RewriteNode(n, stmtLocation, st).1, seen, Matches(n), stmtLocation)
    ensures Matches(RewriteNode(n, stmtLocation, st).0) == []
    decreases n, 1
  {
    var (c1, st1) := RewriteNode(n.val, stmtLocation, st);
    var n1 := AConst(c1, n.location);
    MatchesWrapped(n);
    MatchesWrapped(n1);
    assert RewriteNode(n, stmtLocation, st) == (n1, st1);
    RewriteTracks(n.val, stmtLocation, st, seen);
    HandledAs(st, st1, RewriteNode(n, stmtLocation, st).1, seen, Matches(n.val), Matches(n), stmtLocation);
  }

  lemma {:induction false} RewriteTracksFuncCall(n: Node, stmtLocation: int, st: State, seen: seq<string>)
    requires Tracks(st, Dedup(seen))
    requires n.FuncCall? && MatchAt(n).None?
    ensures Handled(st, RewriteNode(n, stmtLocation, st).1, seen, Matches(n), stmtLocation)
    ensures Matches(RewriteNode(n, stmtLocation, st).0) == []
    decreases n, 1
  {
    var (args1, st1) := RewriteSeq(n.args, stmtLocation, st);
    assert RewriteNode(n, stmtLocation, st) == (FuncCall(n.func, args1, n.location), st1);
    RewriteSeqTracks(n.args, stmtLocation, st, seen);
    HandledAs(st, st1, RewriteNode(n, stmtLocation, st).1, seen, MatchesSeq(n.args), Matches(n), stmtLocation);
    assert MatchAt(FuncCall(n.func, args1, n.location)).None?;
    assert Matches(FuncCall(n.func, args1, n.location)) == MatchesSeq(args1);
  }

  lemma {:induction false} RewriteTracksOther(n: Node, stmtLocation: int, st: State, seen: seq<string>)
    requires Tracks(st, Dedup(seen))
    requires n.Other?
    ensures Handled(st, RewriteNode(n, stmtLocation, st).1, seen, Matches(n), stmtLocation)
    ensures Matches(RewriteNode(n, stmtLocation, st).0) == []
    decreases n, 1
  {
    var (children1, st1) := RewriteSeq(n.children, stmtLocation, st);
    MatchesOther(n.children);
    MatchesOther(children1);
    assert RewriteNode(n, stmtLocation, st) == (Other(children1), st1);
    RewriteSeqTracks(n.children, stmtLocation, st, seen);
    HandledAs(st, st1, RewriteNode(n, stmtLocation, st).1, seen, MatchesSeq(n.children), Matches(n), stmtLocation);
  }

  lemma {:induction false} RewriteTracksAExpr(n: Node, stmtLocation: int, st: State, seen: seq<string>)
    requires Tracks(st, Dedup(seen))
    requires n.AExpr? && MatchAt(n).None?
    ensures Handled(st, RewriteNode(n, stmtLocation, st).1, seen, Matches(n), stmtLocation)
    ensures Matches(RewriteNode(n, stmtLocation, st).0) == []
    decreases n, 1
  {
    var (l1, st1) := RewriteNode(n.lexpr, stmtLocation, st);
    var (r1, st2) := RewriteNode(n.rexpr, stmtLocation, st1);
    var n1 := AExpr(n.name, l1, r1, n.location);
    MatchesAExpr(n, n.lexpr, n.rexpr);
    MatchesAExpr(n, l1, r1);
    assert RewriteNode(n, stmtLocation, st) == (n1, st2);
    RewriteTracks(n.lexpr, stmtLocation, st, seen);
    RewriteTracks(n.rexpr, stmtLocation, st1, seen + Names(Matches(n.lexpr)));
    HandledChain(st, st1, st2, seen, Matches(n.lexpr), Matches(n.rexpr), stmtLocation);
    HandledAs(st, st2, RewriteNode(n, stmtLocation, st).1, seen, Matches(n.lexpr) + Matches(n.rexpr), Matches(n), stmtLocation);
    assert Matches(n1) == [] + [];
  }

  /** An expression that is not itself an occurrence stays so with other operands. */
  lemma MatchesAExpr(n: Node, l: Node, r: Node)
    requires n.AExpr? && MatchAt(n).None?
    ensures MatchAt(AExpr(n.name, l, r, n.location)).None?
    ensures Matches(AExpr(n.name, l, r, n.location)) == Matches(l) + Matches(r)
  {
    assert !IsParamSign(n);
  }

  lemma {:induction false} RewriteSeqTracks(ns: seq<Node>, stmtLocation: int, st: State, seen: seq<string>)
    requires Tracks(st, Dedup(seen))
    ensures Handled(st, RewriteSeq(ns, stmtLocation, st).1, seen, MatchesSeq(ns), stmtLocation)
    ensures MatchesSeq(RewriteSeq(ns, stmtLocation, st).0) == []
    decreases ns, 3
  {
    if ns == [] {
      HandledNothing(st, seen, stmtLocation);
    } else {
      var (head, st1) := RewriteNode(ns[0], stmtLocation, st);
      var (tail, st2) := RewriteSeq(ns[1..], stmtLocation, st1);
      RewriteTracks(ns[0], stmtLocation, st, seen);
      RewriteSeqTracks(ns[1..], stmtLocation, st1, seen + Names(Matches(ns[0])));
      HandledChain(st, st1, st2, seen, Matches(ns[0]), MatchesSeq(ns[1..]), stmtLocation);
      assert ([head] + tail)[0] == head && ([head] + tail)[1..] == tail;
    }
  }

  /**
   * The rewrite of `n` from `st` gives the reference substitution, read under
   * the distinct names known once `n` has been handled.
   */
  ghost predicate Shaped(n: Node, stmtLocation: int, st: State, seen: seq<string>)
  {
    var d := Dedup(seen + Names(Matches(n)));
    AllNamed(Matches(n), d) && RewriteNode(n, stmtLocation, st).0 == Substituted(n, d)
  }

  ghost predicate ShapedSeq(ns: seq<Node>, stmtLocation: int, st: State, seen: seq<string>)
  {
    var d := Dedup(seen + Names(MatchesSeq(ns)));
    AllNamed(MatchesSeq(ns), d) && RewriteSeq(ns, stmtLocation, st).0 == SubstitutedSeq(ns, d)
  }

  /**
   * The rewritten node is the reference substitution, read under the
   * distinct names known once the node has been handled.
   */
  lemma {:induction false} RewriteShape(n: Node, stmtLocation: int, st: State, seen: seq<string>)
    requires Tracks(st, Dedup(seen))
    ensures Shaped(n, stmtLocation, st, seen)
    decreases n, 2
  {
    RewriteTracks(n, stmtLocation, st, seen);
    if MatchAt(n).Some? {
      ShapeMatch(n, stmtLocation, st, seen);
    } else if n.AExpr? {
      ShapeAExpr(n, stmtLocation, st, seen);
    } else if n.FuncCall? {
      ShapeFuncCall(n, stmtLocation, st, seen);
    } else if n.Other? {
      ShapeOther(n, stmtLocation, st, seen);
    } else if n.TypeCast? {
      ShapeTypeCast(n, stmtLocation, st, seen);
    } else if n.NamedArgExpr? {
      ShapeNamedArg(n, stmtLocation, st, seen);
    } else if n.ResTarget? {
      ShapeResTarget(n, stmtLocation, st, seen);
    } else if n.AConst? {
      ShapeAConst(n, stmtLocation, st, seen);
    } else {
      assert MatchAt(n).None? && RewriteNode(n, stmtLocation, st).0 == n;
    }
  }

  lemma ShapeMatch(n: Node, stmtLocation: int, st: State, seen: seq<string>)
    requires Tracks(st, Dedup(seen))
    requires MatchAt(n).Some?
    ensures Shaped(n, stmtLocation, st, seen)
  {
    var m := MatchAt(n).value;
    var (num, st1) := Record(st, m, stmtLocation);
    assert RewriteNode(n, stmtLocation, st) == (Replacement(n, m, num), st1);
    HandledOne(st, seen, m, stmtLocation);
    assert Matches(n) == [m];
    var d := Dedup(seen + Names([m]));
    ArgsOrdinal(st1, d, m.name);
  }

  lemma {:induction false} ShapeTypeCast(n: Node, stmtLocation: int, st: State, seen: seq<string>)
    requires Tracks(st, Dedup(seen))
    requires n.TypeCast?
    ensures Shaped(n, stmtLocation, st, seen)
    decreases n, 1
  {
    MatchesWrapped(n);
    RewriteShape(n.arg, stmtLocation, st, seen);
  }

  lemma {:induction false} ShapeNamedArg(n: Node, stmtLocation: int, st: State, seen: seq<string>)
    requires Tracks(st, Dedup(seen))
    requires n.NamedArgExpr?
    ensures Shaped(n, stmtLocation, st, seen)
    decreases n, 1
  {
    MatchesWrapped(n);
    RewriteShape(n.arg, stmtLocation, st, seen);
  }

  lemma {:induction false} ShapeResTarget(n: Node, stmtLocation: int, st: State, seen: seq<string>)
    requires Tracks(st, Dedup(seen))
    requires n.ResTarget?
    ensures Shaped(n, stmtLocation, st, seen)
    decreases n, 1
  {
    MatchesWrapped(n);
    RewriteShape(n.val, stmtLocation, st, seen);
  }

  lemma {:induction false} ShapeAConst(n: Node, stmtLocation: int, st: State, seen: seq<string>)
    requires Tracks(st, Dedup(seen))
    requires n.AConst?
    ensures Shaped(n, stmtLocation, st, seen)
    decreases n, 1
  {
    RewriteShape(n.val, stmtLocation, st, seen);
    AConstShaped(n, stmtLocation, st, seen);
  }

  /** A constant is shaped once its value is. */
  lemma AConstShaped(n: Node, stmtLocation: int, st: State, seen: seq<string>)
    requires n.AConst? && Shaped(n.val, stmtLocation, st, seen)
    ensures Shaped(n, stmtLocation, st, seen)
  {
    MatchesWrapped(n);
    var d := Dedup(seen + Names(Matches(n.val)));
    assert RewriteNode(n, stmtLocation, st).0 == AConst(RewriteNode(n.val, stmtLocation, st).0, n.location);
    assert Substituted(n, d) == AConst(Substituted(n.val, d), n.location);
  }

  lemma {:induction false} ShapeFuncCall(n: Node, stmtLocation: int, st: State, seen: seq<string>)
    requires Tracks(st, Dedup(seen))
    requires n.FuncCall? && MatchAt(n).None?
    ensures Shaped(n, stmtLocation, st, seen)
    decreases n, 1
  {
    RewriteShapeSeq(n.args, stmtLocation, st, seen);
    FuncCallShaped(n, stmtLocation, st, seen);
  }

  /** A call that is not itself an occurrence is shaped once its arguments are. */
  lemma FuncCallShaped(n: Node, stmtLocation: int, st: State, seen: seq<string>)
    requires n.FuncCall? && MatchAt(n).None? && ShapedSeq(n.args, stmtLocation, st, seen)
    ensures Shaped(n, stmtLocation, st, seen)
  {
    var d := Dedup(seen + Names(MatchesSeq(n.args)));
    assert Matches(n) == MatchesSeq(n.args);
    assert RewriteNode(n, stmtLocation, st).0 == FuncCall(n.func, RewriteSeq(n.args, stmtLocation, st).0, n.location);
    assert Substituted(n, d) == FuncCall(n.func, SubstitutedSeq(n.args, d), n.location);
  }

  lemma {:induction false} ShapeOther(n: Node, stmtLocation: int, st: State, seen: seq<string>)
    requires Tracks(st, Dedup(seen))
    requires n.Other?
    ensures Shaped(n, stmtLocation, st, seen)
    decreases n, 1
  {
    RewriteShapeSeq(n.children, stmtLocation, st, seen);
    OtherShaped(n, stmtLocation, st, seen);
  }

  /** A list node is shaped once its children are. */
  lemma OtherShaped(n: Node, stmtLocation: int, st: State, seen: seq<string>)
    requires n.Other? && ShapedSeq(n.children, stmtLocation, st, seen)
    ensures Shaped(n, stmtLocation, st, seen)
  {
    MatchesOther(n.children);
    var d := Dedup(seen + Names(MatchesSeq(n.children)));
    assert RewriteNode(n, stmtLocation, st).0 == Other(RewriteSeq(n.children, stmtLocation, st).0);
    assert Substituted(n, d) == Other(SubstitutedSeq(n.children, d));
  }

  lemma {:induction false} ShapeAExpr(n: Node, stmtLocation: int, st: State, seen: seq<string>)
    requires Tracks(st, Dedup(seen))
    requires n.AExpr? && MatchAt(n).None?
    ensures Shaped(n, stmtLocation, st, seen)
    decreases n, 1
  {
    var (l1, st1) := RewriteNode(n.lexpr, stmtLocation, st);
    var (r1, st2) := RewriteNode(n.rexpr, stmtLocation, st1);
    MatchesAExpr(n, n.lexpr, n.rexpr);
    assert RewriteNode(n, stmtLocation, st).0 == AExpr(n.name, l1, r1, n.location);
    RewriteTracks(n.lexpr, stmtLocation, st, seen);
    RewriteShape(n.lexpr, stmtLocation, st, seen);
    var seen1 := seen + Names(Matches(n.lexpr));
    RewriteShape(n.rexpr, stmtLocation, st1, seen1);
    SeenAssoc(seen, Matches(n.lexpr), Matches(n.rexpr));
    DedupPrefix(seen1, Names(Matches(n.rexpr)));
    var d1, d := Dedup(seen1), Dedup(seen1 + Names(Matches(n.rexpr)));
    SubstitutedStable(n.lexpr, d1, d);
    SubstitutedAExpr(n, d);
  }

  /** `Substituted` at an expression that is not itself an occurrence. */
  lemma SubstitutedAExpr(n: Node, d: seq<string>)
    requires n.AExpr? && MatchAt(n).None?
    requires AllNamed(Matches(n.lexpr), d) && AllNamed(Matches(n.rexpr), d)
    ensures AllNamed(Matches(n), d)
    ensures Substituted(n, d) == AExpr(n.name, Substituted(n.lexpr, d), Substituted(n.rexpr, d), n.location)
  {
    MatchesAExpr(n, n.lexpr, n.rexpr);
    EditsForConcat(Matches(n.lexpr), Matches(n.rexpr), d, 0);
  }

  lemma {:induction false} RewriteShapeSeq(ns: seq<Node>, stmtLocation: int, st: State, seen: seq<string>)
    requires Tracks(st, Dedup(seen))
    ensures ShapedSeq(ns, stmtLocation, st, seen)
    decreases ns, 3
  {
    RewriteSeqTracks(ns, stmtLocation, st, seen);
    if ns != [] {
      var (head, st1) := RewriteNode(ns[0], stmtLocation, st);
      var (tail, st2) := RewriteSeq(ns[1..], stmtLocation, st1);
      RewriteTracks(ns[0], stmtLocation, st, seen);
      RewriteShape(ns[0], stmtLocation, st, seen);
      var seen1 := seen + Names(Matches(ns[0]));
      RewriteShapeSeq(ns[1..], stmtLocation, st1, seen1);
      SeenAssoc(seen, Matches(ns[0]), MatchesSeq(ns[1..]));
      DedupPrefix(seen1, Names(MatchesSeq(ns[1..])));
      var d1, d := Dedup(seen1), Dedup(seen1 + Names(MatchesSeq(ns[1..])));
      SubstitutedStable(ns[0], d1, d);
      assert RewriteSeq(ns, stmtLocation, st).0 == [head] + tail;
    }
  }

  /**
   * The ordinal -> name map kept during the traversal is the inverse of the
   * name -> ordinal map, which is how the source builds it once the traversal ends.
   */
  lemma NamedInvertsArgs(st: State, d: seq<string>)
    requires Tracks(st, d)
    ensures Injective(st.args)
    ensures Invert(st.args) == st.named
  {
    assert Injective(st.args) by {
      forall a, b | a in st.args && b in st.args && st.args[a] == st.args[b] ensures a == b {
        var i :| 0 <= i < |d| && d[i] == a;
        var j :| 0 <= j < |d| && d[j] == b;
      }
    }
    var inv := Invert(st.args);
    var ref := OrdinalNames(d);
    forall k | k in inv ensures k in ref && inv[k] == ref[k] {
      var x :| x in st.args && st.args[x] == k;
      var i :| 0 <= i < |d| && d[i] == x;
    }
    forall k | k in ref ensures k in inv {
      assert st.args[d[k - 1]] == k;
    }
  }

  // ---------------------------------------------------------------------
  // The early exit agrees with the traversal

  predicate IsNamedForm(n: Node)
  {
    IsParamFunc(n) || IsParamSign(n)
  }

  predicate AnyNamed(ns: seq<Node>)
  {
    exists i :: 0 <= i < |ns| && IsNamedForm(ns[i])
  }

  lemma AnyNamedConcat(a: seq<Node>, b: seq<Node>)
    ensures AnyNamed(a + b) <==> AnyNamed(a) || AnyNamed(b)
  {
    if AnyNamed(a + b) {
      var i :| 0 <= i < |a + b| && IsNamedForm((a + b)[i]);
      if i >= |a| { assert b[i - |a|] == (a + b)[i]; }
    }
    if AnyNamed(a) {
      var i :| 0 <= i < |a| && IsNamedForm(a[i]);
      assert (a + b)[i] == a[i];
    }
    if AnyNamed(b) {
      var i :| 0 <= i < |b| && IsNamedForm(b[i]);
      assert (a + b)[i + |a|] == b[i];
    }
  }

  lemma NoNamedStrs(ss: seq<string>)
    ensures !AnyNamed(StrNodes(ss))
  {
  }

  /** A traversal finds no occurrence exactly when no node of the walk is a named form. */
  lemma {:induction false} MatchesEmptyIff(n: Node)
    ensures Matches(n) == [] <==> !AnyNamed(Walk(n))
    decreases n, 0
  {
    if MatchAt(n).Some? {
      assert IsNamedForm(Walk(n)[0]);
    } else {
      match n
      case FuncCall(_, args, _) =>
        MatchesSeqEmptyIff(args);
        AnyNamedConcat([n], WalkSeq(args));
      case AExpr(name, lexpr, rexpr, _) =>
        MatchesEmptyIff(lexpr);
        MatchesEmptyIff(rexpr);
        NoNamedStrs(name);
        AnyNamedConcat([n], StrNodes(name));
        AnyNamedConcat([n] + StrNodes(name), Walk(lexpr));
        AnyNamedConcat([n] + StrNodes(name) + Walk(lexpr), Walk(rexpr));
      case TypeCast(arg, _, _) =>
        MatchesEmptyIff(arg);
        AnyNamedConcat([n], Walk(arg));
      case NamedArgExpr(_, arg) =>
        MatchesEmptyIff(arg);
        AnyNamedConcat([n], Walk(arg));
      case ResTarget(_, val, _) =>
        MatchesEmptyIff(val);
        AnyNamedConcat([n], Walk(val));
      case AConst(val, _) =>
        MatchesEmptyIff(val);
        AnyNamedConcat([n], Walk(val));
      case Other(children) =>
        MatchesSeqEmptyIff(children);
        AnyNamedConcat([n], WalkSeq(children));
      case ColumnRef(fields, _) =>
        NoNamedStrs(fields);
        AnyNamedConcat([n], StrNodes(fields));
      case _ =>
    }
  }

  lemma {:induction false} MatchesSeqEmptyIff(ns: seq<Node>)
    ensures MatchesSeq(ns) == [] <==> !AnyNamed(WalkSeq(ns))
    decreases ns, 1
  {
    if ns != [] {
      MatchesEmptyIff(ns[0]);
      MatchesSeqEmptyIff(ns[1..]);
      AnyNamedConcat(Walk(ns[0]), WalkSeq(ns[1..]));
    }
  }

  lemma FilterEmpty(s: seq<Node>, p: Node -> bool)
    ensures |Filter(s, p)| == 0 <==> forall i :: 0 <= i < |s| ==> !p(s[i])
  {
    if |Filter(s, p)| != 0 {
      assert Filter(s, p)[0] in Filter(s, p);
    }
  }

  /**
   * The early exit of `NamedParameters` fires exactly when the traversal
   * would find nothing to rewrite, so skipping the traversal changes no result.
   */
  lemma NoNamedFormsIffNoMatches(n: Node)
    ensures NoNamedForms(n) <==> Matches(n) == []
  {
    FilterEmpty(Walk(n), IsParamFunc);
    FilterEmpty(Walk(n), IsParamSign);
    MatchesEmptyIff(n);
  }
}
