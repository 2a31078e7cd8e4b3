/**
 * Properties of `NamedParameters` stated against its reference semantics:
 * ordinals are positions in the list of distinct names, and the edits are
 * the ones each occurrence is owed.
 */
module RewriteProperties {
  import opened Wrappers
  import opened Ast
  import Format
  import opened Rewrite

  /**
   * `named` numbers the distinct names of `names` densely: its keys are
   * exactly 1..k for k distinct names, its values are exactly the names
   * that occur, no two ordinals share a name, and a smaller ordinal belongs
   * to a name that occurs first earlier.
   */
  ghost predicate DenseOrdinals(named: map<int, string>, names: seq<string>)
  {
    && (forall k :: k in named <==> 1 <= k <= |Dedup(names)|)
    && (forall x :: x in names <==> x in named.Values)
    && (forall k1, k2 :: k1 in named && k2 in named && k1 != k2 ==> named[k1] != named[k2])
    && (forall k1, k2 :: k1 in named && k2 in named && k1 < k2 ==>
          named[k1] in names && named[k2] in names && FirstIndex(names, named[k1]) < FirstIndex(names, named[k2]))
  }

  lemma OrdinalNamesValues(names: seq<string>)
    ensures forall x :: x in names <==> x in OrdinalNames(Dedup(names)).Values
  {
    var d := Dedup(names);
    var named := OrdinalNames(d);
    DedupMembers(names);
    forall x | x in names ensures x in named.Values {
      var i :| 0 <= i < |d| && d[i] == x;
      assert named[i + 1] == x;
    }
    forall x | x in named.Values ensures x in names {
      var k :| k in named && named[k] == x;
      assert named[k] == d[k - 1];
    }
  }

  lemma OrdinalNamesOrder(names: seq<string>, k1: int, k2: int)
    requires k1 in OrdinalNames(Dedup(names)) && k2 in OrdinalNames(Dedup(names)) && k1 < k2
    ensures var named := OrdinalNames(Dedup(names));
            named[k1] in names && named[k2] in names && FirstIndex(names, named[k1]) < FirstIndex(names, named[k2])
  {
    var d := Dedup(names);
    var named := OrdinalNames(d);
    assert named[k1] == d[k1 - 1] && named[k2] == d[k2 - 1];
    DedupOrderAt(names, k1 - 1, k2 - 1);
  }

  /** The reference numbering is dense. */
  lemma OrdinalNamesDense(names: seq<string>)
    ensures DenseOrdinals(OrdinalNames(Dedup(names)), names)
  {
    var named := OrdinalNames(Dedup(names));
    OrdinalNamesValues(names);
    forall k1, k2 | k1 in named && k2 in named && k1 < k2
      ensures named[k1] in names && named[k2] in names && FirstIndex(names, named[k1]) < FirstIndex(names, named[k2])
    {
      OrdinalNamesOrder(names, k1, k2);
    }
  }

  /** The returned ordinal -> name map numbers the distinct names densely, in order of first occurrence. */
  lemma NamedParametersOrdinals(raw: RawStmt)
    ensures DenseOrdinals(NamedParameters(raw).1, Names(Matches(raw.stmt)))
  {
    OrdinalNamesDense(Names(Matches(raw.stmt)));
  }

  /**
   * The i-th edit belongs to the i-th occurrence in traversal order: it is
   * placed at the occurrence's offset from the statement start, replaces
   * the occurrence's text, and writes `$k` for the ordinal k of its name.
   */
  lemma NamedParametersEdit(raw: RawStmt, i: nat)
    requires i < |Matches(raw.stmt)|
    ensures var r := NamedParameters(raw);
            var m := Matches(raw.stmt)[i];
            var k := Ordinal(Dedup(Names(Matches(raw.stmt))), m.name);
            && |r.2| == |Matches(raw.stmt)|
            && k in r.1 && r.1[k] == m.name
            && r.2[i].location == m.location - raw.stmtLocation
            && r.2[i].oldText == OldText(m)
            && r.2[i].newText == Placeholder(k)
  {
    var r := NamedParameters(raw);
    EditOfOccurrence(Matches(raw.stmt), Dedup(Names(Matches(raw.stmt))), raw.stmtLocation, r.1, r.2, i);
  }

  lemma EditOfOccurrence(ms: seq<Match>, d: seq<string>, stmtLocation: int, ordinals: map<int, string>, edits: seq<Edit>, i: nat)
    requires ordinals == OrdinalNames(d) && AllNamed(ms, d) && edits == EditsFor(ms, d, stmtLocation)
    requires i < |ms|
    ensures var k := Ordinal(d, ms[i].name);
            && |edits| == |ms|
            && k in ordinals && ordinals[k] == ms[i].name
            && edits[i] == Edit(ms[i].location - stmtLocation, OldText(ms[i]), Placeholder(k))
  {
    EditsForAt(ms, d, stmtLocation, i);
    var k := Ordinal(d, ms[i].name);
    assert ordinals[k] == d[k - 1];
  }

  /** Two occurrences get the same `$n` text exactly when they use the same name. */
  lemma SamePlaceholderIffSameName(raw: RawStmt, i: nat, j: nat)
    requires i < |Matches(raw.stmt)| && j < |Matches(raw.stmt)|
    ensures var r := NamedParameters(raw);
            |r.2| == |Matches(raw.stmt)| &&
            (r.2[i].newText == r.2[j].newText <==> Matches(raw.stmt)[i].name == Matches(raw.stmt)[j].name)
  {
    var ms := Matches(raw.stmt);
    var d := Dedup(Names(ms));
    NamedParametersEdit(raw, i);
    NamedParametersEdit(raw, j);
    var ki, kj := Ordinal(d, ms[i].name), Ordinal(d, ms[j].name);
    if Placeholder(ki) == Placeholder(kj) {
      assert Format.Decimal(ki) == Placeholder(ki)[1..] == Placeholder(kj)[1..] == Format.Decimal(kj);
      Format.DecimalInjective(ki, kj);
    }
  }

  /** Normalising a normalised statement changes nothing and names nothing. */
  lemma NamedParametersIdempotent(raw: RawStmt)
    ensures var r := NamedParameters(raw);
            NamedParameters(r.0) == (r.0, map[], [])
  {
  }

  /**
   * A matched node is replaced as a whole, and nothing under it is visited:
   * the rewrite appends exactly the one edit for it, and yields a placeholder,
   * wrapped in the original cast for the sign-cast form.
   */
  lemma MatchedNodeReplaced(n: Node, stmtLocation: int, st: State)
    requires MatchAt(n).Some?
    ensures var m := MatchAt(n).value;
            var (n1, st1) := RewriteNode(n, stmtLocation, st);
            && Matches(n) == [m]
            && m.name in st1.args
            && st1.edits == st.edits + [Edit(n.location - stmtLocation, OldText(m), Placeholder(st1.args[m.name]))]
            && (m.form.SignCastForm? ==>
                  n1 == TypeCast(ParamRef(st1.args[m.name], n.location), n.rexpr.typeName, n.rexpr.location))
            && (!m.form.SignCastForm? ==> n1 == ParamRef(st1.args[m.name], n.location))
  {
  }

  /**
   * The three forms are tried in order: a cast-wrapped `@x` is always the
   * sign-cast form, never the plain sign form, and its edit replaces `@x`
   * without the cast.
   */
  lemma SignCastPrecedesSign(n: Node)
    requires IsNamedParamSignCast(n)
    ensures MatchAt(n) == Some(Match(SignCastForm, Flatten(n.rexpr.arg).0, n.location))
    ensures OldText(MatchAt(n).value) == "@" + Flatten(n.rexpr.arg).0
  {
  }

  /** `@x::t` at `location`, the cast at `castLocation`. */
  function SignCast(x: string, t: TypeName, location: int, castLocation: int): Node
  {
    AExpr(["@"], Nil, TypeCast(ColumnRef([x], location), Some(t), castLocation), location)
  }

  /** A statement using `@x::t` twice. */
  function Twice(x: string, t: TypeName, loc1: int, loc2: int): RawStmt
  {
    RawStmt(Other([SignCast(x, t, loc1, loc1 + 4), SignCast(x, t, loc2, loc2 + 4)]), 0)
  }

  lemma FlattenColumnName(x: string, loc: int)
    ensures Flatten(ColumnRef([x], loc)).0 == x
  {
    var c := ColumnRef([x], loc);
    assert StrNodes([x]) == [Str(x)];
    assert Walk(c) == [c, Str(x)];
    assert Fragments(Walk(c)[1..]) == x;
  }

  lemma SignCastMatch(x: string, t: TypeName, location: int, castLocation: int)
    ensures MatchAt(SignCast(x, t, location, castLocation)) == Some(Match(SignCastForm, x, location))
  {
    assert Join(["@"], ".") == "@";
    FlattenColumnName(x, location);
  }

  /**
   * The name and the replaced text of the other forms: `sqlc.arg(x)`,
   * `sqlc.arg('x')` and `@x` each take the name `x`; only the quoted call is
   * flagged as quoted, and each edit replaces the text as it was written.
   */
  lemma NamedFormNames(x: string, loc: int)
    ensures var m := MatchAt(FuncCall(FuncName("sqlc", "arg"), [ColumnRef([x], loc)], loc));
            m == Some(Match(FuncForm(false), x, loc)) && OldText(m.value) == "sqlc.arg(" + x + ")"
    ensures var m := MatchAt(FuncCall(FuncName("sqlc", "arg"), [AConst(Str(x), loc)], loc));
            m == Some(Match(FuncForm(true), x, loc)) && OldText(m.value) == "sqlc.arg('" + x + "')"
    ensures var m := MatchAt(AExpr(["@"], Nil, ColumnRef([x], loc), loc));
            m == Some(Match(SignForm, x, loc)) && OldText(m.value) == "@" + x
  {
    FlattenIdentifierArg(x, loc);
    FlattenQuotedArg(x, loc);
    assert Join(["@"], ".") == "@";
    FlattenColumnName(x, loc);
  }

  lemma RewriteAtMatch(n: Node, m: Match, stmtLocation: int, st: State)
    requires MatchAt(n) == Some(m)
    ensures RewriteNode(n, stmtLocation, st) ==
              (Replacement(n, m, Record(st, m, stmtLocation).0), Record(st, m, stmtLocation).1)
  {
  }

  lemma RecordSignCast(x: string, location: int, st: State)
    ensures var num := if x in st.args then st.args[x] else st.argn + 1;
            Record(st, Match(SignCastForm, x, location), 0) ==
              (num, State(st.args[x := num], if x in st.args then st.argn else st.argn + 1,
                          st.edits + [Edit(location, "@" + x, Placeholder(num))],
                          if x in st.args then st.named else st.named[st.argn + 1 := x]))
  {
    if x in st.args {
      assert st.args[x := st.args[x]] == st.args;
    }
    assert OldText(Match(SignCastForm, x, location)) == "@" + x;
  }

  lemma SignCastRewrite(x: string, t: TypeName, location: int, castLocation: int, st: State)
    ensures var num := if x in st.args then st.args[x] else st.argn + 1;
            RewriteNode(SignCast(x, t, location, castLocation), 0, st) ==
              (TypeCast(ParamRef(num, location), Some(t), castLocation),
               State(st.args[x := num], if x in st.args then st.argn else st.argn + 1,
                     st.edits + [Edit(location, "@" + x, Placeholder(num))],
                     if x in st.args then st.named else st.named[st.argn + 1 := x]))
  {
    var n := SignCast(x, t, location, castLocation);
    var m := Match(SignCastForm, x, location);
    SignCastMatch(x, t, location, castLocation);
    RewriteAtMatch(n, m, 0, st);
    RecordSignCast(x, location, st);
  }


  lemma TwiceMatches(x: string, t: TypeName, loc1: int, loc2: int)
    ensures Matches(Twice(x, t, loc1, loc2).stmt) == [Match(SignCastForm, x, loc1), Match(SignCastForm, x, loc2)]
  {
    var a, b := SignCast(x, t, loc1, loc1 + 4), SignCast(x, t, loc2, loc2 + 4);
    SignCastMatch(x, t, loc1, loc1 + 4);
    SignCastMatch(x, t, loc2, loc2 + 4);
    assert [a, b][1..] == [b] && [b][1..] == [];
    assert MatchesSeq([b]) == Matches(b) + MatchesSeq([]) == [Match(SignCastForm, x, loc2)];
    assert MatchesSeq([a, b]) == Matches(a) + MatchesSeq([b]);
    assert Matches(Other([a, b])) == MatchesSeq([a, b]);
  }

  lemma RewriteOther(children: seq<Node>, stmtLocation: int, st: State)
    ensures RewriteNode(Other(children), stmtLocation, st) ==
              (Other(RewriteSeq(children, stmtLocation, st).0), RewriteSeq(children, stmtLocation, st).1)
  {
    MatchesOther(children);
  }

  lemma RewriteSeqTwo(a: Node, b: Node, stmtLocation: int, st: State)
    ensures var (a1, st1) := RewriteNode(a, stmtLocation, st);
            var (b1, st2) := RewriteNode(b, stmtLocation, st1);
            RewriteSeq([a, b], stmtLocation, st) == ([a1, b1], st2)
  {
    var (a1, st1) := RewriteNode(a, stmtLocation, st);
    var (b1, st2) := RewriteNode(b, stmtLocation, st1);
    assert [a, b][1..] == [b] && [b][1..] == [];
    assert RewriteSeq([b], stmtLocation, st1) == ([b1] + [], st2);
    assert [b1] + [] == [b1] && [a1] + [b1] == [a1, b1];
  }

  lemma TwiceRewrite(x: string, t: TypeName, loc1: int, loc2: int)
    ensures RewriteNode(Twice(x, t, loc1, loc2).stmt, 0, State(map[], 0, [], map[])) ==
              (Other([TypeCast(ParamRef(1, loc1), Some(t), loc1 + 4), TypeCast(ParamRef(1, loc2), Some(t), loc2 + 4)]),
               State(map[x := 1], 1, [Edit(loc1, "@" + x, "$1"), Edit(loc2, "@" + x, "$1")], map[1 := x]))
  {
    var a, b := SignCast(x, t, loc1, loc1 + 4), SignCast(x, t, loc2, loc2 + 4);
    var ea, eb := Edit(loc1, "@" + x, "$1"), Edit(loc2, "@" + x, "$1");
    PlaceholderOne();
    var st0 := State(map[], 0, [], map[]);
    var st1 := State(map[x := 1], 1, [ea], map[1 := x]);
    var st2 := State(map[x := 1], 1, [ea, eb], map[1 := x]);
    SignCastRewrite(x, t, loc1, loc1 + 4, st0);
    assert map[][x := 1] == st1.args && map[][1 := x] == st1.named && [] + [ea] == [ea];
    SignCastRewrite(x, t, loc2, loc2 + 4, st1);
    assert st1.args[x := 1] == st1.args && [ea] + [eb] == [ea, eb];
    RewriteSeqTwo(a, b, 0, st0);
    RewriteOther([a, b], 0, st0);
  }


  lemma DedupTwice(x: string)
    ensures Dedup([x, x]) == [x]
  {
    assert [x, x][..1] == [x] && [x][..0] == [];
    assert Dedup([x]) == [x];
  }

  lemma PlaceholderOne()
    ensures Placeholder(1) == "$1"
  {
    assert Format.Decimal(1) == "1";
  }

  lemma OrdinalNamesOne(x: string)
    ensures OrdinalNames([x]) == map[1 := x]
  {
    assert [x][..0] == [];
  }

  lemma EditsForTwice(x: string, loc1: int, loc2: int)
    ensures AllNamed([Match(SignCastForm, x, loc1), Match(SignCastForm, x, loc2)], [x])
    ensures EditsFor([Match(SignCastForm, x, loc1), Match(SignCastForm, x, loc2)], [x], 0) ==
              [Edit(loc1, "@" + x, "$1"), Edit(loc2, "@" + x, "$1")]
  {
    var ma, mb := Match(SignCastForm, x, loc1), Match(SignCastForm, x, loc2);
    PlaceholderOne();
    assert Ordinal([x], x) == 1;
    assert [ma, mb][1..] == [mb] && [mb][1..] == [];
    var e := EditsFor([mb], [x], 0);
    assert e == [Edit(loc2, "@" + x, "$1")] + [];
  }

  /**
   * A name used twice is numbered once: both occurrences of `@x::t` become
   * `$1`, the map is {1: x}, and both casts survive around the placeholders.
   */
  lemma RepeatedNameSharesOrdinal(x: string, t: TypeName, loc1: int, loc2: int)
    ensures NamedParameters(Twice(x, t, loc1, loc2)) ==
              (RawStmt(Other([TypeCast(ParamRef(1, loc1), Some(t), loc1 + 4), TypeCast(ParamRef(1, loc2), Some(t), loc2 + 4)]), 0),
               map[1 := x],
               [Edit(loc1, "@" + x, "$1"), Edit(loc2, "@" + x, "$1")])
  {
    var raw := Twice(x, t, loc1, loc2);
    TwiceMatches(x, t, loc1, loc2);
    NoNamedFormsIffNoMatches(raw.stmt);
    TwiceRewrite(x, t, loc1, loc2);
    var ma, mb := Match(SignCastForm, x, loc1), Match(SignCastForm, x, loc2);
    assert Names([ma, mb]) == [x, x];
    DedupTwice(x);
    OrdinalNamesOne(x);
    EditsForTwice(x, loc1, loc2);
  }
}
