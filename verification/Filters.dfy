/** The row editor's filters: `col.op.value` parameters compiled to a WHERE clause with numbered bind
    parameters, against what each filter says directly. */
module Filters {
  import opened Exceptions
  import opened Strings

  datatype SqlOp = Eq | Neq | Gt | Gte | Lt | Lte | Like | ILike

  /** One condition of the clause. Columns are cast to text; `$i` is parameter i, counted from 1. */
  datatype Cond =
    | IsNull(col: string)
    | IsNotNull(col: string)
    | InList(col: string, params: seq<nat>)
    | Compare(col: string, op: SqlOp, param: nat)

  datatype FilterView = FilterView(col: string, op: string, val: string)

  function SqlOpOf(op: string): Option<SqlOp> {
    if op == "eq" then Some(Eq)
    else if op == "neq" then Some(Neq)
    else if op == "gt" then Some(Gt)
    else if op == "gte" then Some(Gte)
    else if op == "lt" then Some(Lt)
    else if op == "lte" then Some(Lte)
    else if op == "like" then Some(Like)
    else if op == "ilike" then Some(ILike)
    else None
  }

  // ----- what a filter says -----

  /** `col.op.value` split at its first two dots; without a second dot the value is empty. */
  function Parse(p: string): Option<FilterView> {
    var i := Index(p, '.');
    if i == |p| then None
    else
      var rest := p[i + 1..];
      var j := Index(rest, '.');
      if j == |rest| then Some(FilterView(p[..i], rest, ""))
      else Some(FilterView(p[..i], rest[..j], rest[j + 1..]))
  }

  predicate KnownColumn(colSet: map<string, bool>, col: string) {
    col in colSet && colSet[col]
  }

  predicate KnownOp(f: FilterView) {
    (f.op == "is" && (f.val == "null" || f.val == "notnull")) || f.op == "in" || SqlOpOf(f.op).Some?
  }

  /** Filters on unknown columns or with unknown operators are dropped. */
  function Accepted(p: string, colSet: map<string, bool>): Option<FilterView> {
    var f := Parse(p);
    if f.Some? && KnownColumn(colSet, f.value.col) && KnownOp(f.value) then f else None
  }

  /** How the database compares texts. */
  datatype Collation = Collation(less: (string, string) -> bool, like: (string, string) -> bool, ilike: (string, string) -> bool)

  predicate Holds(k: Collation, op: SqlOp, a: string, b: string) {
    match op
    case Eq => a == b
    case Neq => a != b
    case Gt => k.less(b, a)
    case Gte => k.less(b, a) || a == b
    case Lt => k.less(a, b)
    case Lte => k.less(a, b) || a == b
    case Like => k.like(a, b)
    case ILike => k.ilike(a, b)
  }

  /** A row: the text of every column, or None for null. */
  type Row = string -> Option<string>

  /** The direct meaning of an accepted filter, operator by operator. No comparison holds of a null. */
  predicate Means(k: Collation, f: FilterView, row: Row) {
    var v := row(f.col);
    if f.op == "is" && f.val == "null" then v.None?
    else if f.op == "is" && f.val == "notnull" then v.Some?
    else
      && v.Some?
      && (f.op == "in" ==> exists it :: it in Split(f.val, ',') && v.value == TrimSpace(it))
      && (f.op == "eq" ==> v.value == f.val)
      && (f.op == "neq" ==> v.value != f.val)
      && (f.op == "gt" ==> k.less(f.val, v.value))
      && (f.op == "gte" ==> k.less(f.val, v.value) || v.value == f.val)
      && (f.op == "lt" ==> k.less(v.value, f.val))
      && (f.op == "lte" ==> k.less(v.value, f.val) || v.value == f.val)
      && (f.op == "like" ==> k.like(v.value, f.val))
      && (f.op == "ilike" ==> k.ilike(v.value, f.val))
  }

  // ----- what a clause says -----

  /** SQL's three truth values. */
  datatype Truth = True | False | Unknown

  function And(a: Truth, b: Truth): Truth {
    if a == False || b == False then False else if a == True && b == True then True else Unknown
  }

  function Or(a: Truth, b: Truth): Truth {
    if a == True || b == True then True else if a == False && b == False then False else Unknown
  }

  function Truly(b: bool): Truth {
    if b then True else False
  }

  function CompareText(k: Collation, op: SqlOp, v: Option<string>, arg: string): Truth {
    if v.None? then Unknown else Truly(Holds(k, op, v.value, arg))
  }

  /** `v IN (p1, ..., pn)` is v = p1 OR ... OR v = pn. */
  function InArgs(k: Collation, v: Option<string>, params: seq<nat>, args: seq<string>): Truth {
    if params == [] then False
    else Or(InArgs(k, v, params[..|params| - 1], args), CompareText(k, Eq, v, Arg(args, params[|params| - 1])))
  }

  function Arg(args: seq<string>, i: nat): string {
    if 0 < i <= |args| then args[i - 1] else ""
  }

  function EvalCond(k: Collation, c: Cond, row: Row, args: seq<string>): Truth {
    match c
    case IsNull(col) => Truly(row(col).None?)
    case IsNotNull(col) => Truly(row(col).Some?)
    case InList(col, params) => InArgs(k, row(col), params, args)
    case Compare(col, op, i) => CompareText(k, op, row(col), Arg(args, i))
  }

  /** The clause joins its conditions with AND; without conditions there is no clause. */
  function EvalWhere(k: Collation, conds: seq<Cond>, row: Row, args: seq<string>): Truth {
    if conds == [] then True
    else And(EvalWhere(k, conds[..|conds| - 1], row, args), EvalCond(k, conds[|conds| - 1], row, args))
  }

  /** What the conditions say in SQL: a test for null is never unknown, a comparison with a null always is,
      and an IN list is true of the values of its parameters. */
  lemma SqlMeans(k: Collation, col: string, i: nat, params: seq<nat>, row: Row, args: seq<string>)
    requires 0 < i <= |args| && forall j :: 0 <= j < |params| ==> 0 < params[j] <= |args|
    ensures EvalCond(k, IsNull(col), row, args) == if row(col) == None then True else False
    ensures EvalCond(k, IsNotNull(col), row, args) == if row(col) == None then False else True
    ensures row(col) == None ==> forall op :: EvalCond(k, Compare(col, op, i), row, args) == Unknown
    ensures row(col).Some? ==> var v, a := row(col).value, args[i - 1];
      && EvalCond(k, Compare(col, Eq, i), row, args) == (if v == a then True else False)
      && EvalCond(k, Compare(col, Neq, i), row, args) == (if v != a then True else False)
      && EvalCond(k, Compare(col, Gt, i), row, args) == (if k.less(a, v) then True else False)
      && EvalCond(k, Compare(col, Gte, i), row, args) == (if k.less(a, v) || v == a then True else False)
      && EvalCond(k, Compare(col, Lt, i), row, args) == (if k.less(v, a) then True else False)
      && EvalCond(k, Compare(col, Lte, i), row, args) == (if k.less(v, a) || v == a then True else False)
      && EvalCond(k, Compare(col, Like, i), row, args) == (if k.like(v, a) then True else False)
      && EvalCond(k, Compare(col, ILike, i), row, args) == (if k.ilike(v, a) then True else False)
    ensures EvalCond(k, InList(col, params), row, args) == True <==>
      row(col).Some? && exists j :: 0 <= j < |params| && args[params[j] - 1] == row(col).value
  {
    InArgsTrue(k, row(col), params, args);
  }

  lemma {:induction false} InArgsTrue(k: Collation, v: Option<string>, params: seq<nat>, args: seq<string>)
    requires forall j :: 0 <= j < |params| ==> 0 < params[j] <= |args|
    ensures InArgs(k, v, params, args) == True <==> v.Some? && exists j :: 0 <= j < |params| && args[params[j] - 1] == v.value
  {
    if params != [] {
      var n := |params| - 1;
      InArgsTrue(k, v, params[..n], args);
      if v.Some? {
        if j :| 0 <= j < n && args[params[..n][j] - 1] == v.value {
          assert args[params[j] - 1] == v.value;
        }
        if j :| 0 <= j < |params| && args[params[j] - 1] == v.value {
          if j < n { assert args[params[..n][j] - 1] == v.value; }
        }
      }
    }
  }

  /** A clause is true if all its conditions are. */
  lemma {:induction false} WhereIsConjunction(k: Collation, conds: seq<Cond>, row: Row, args: seq<string>)
    ensures EvalWhere(k, conds, row, args) == True <==> forall c :: c in conds ==> EvalCond(k, c, row, args) == True
  {
    hide EvalCond;
    if conds != [] {
      var n := |conds| - 1;
      WhereIsConjunction(k, conds[..n], row, args);
      assert conds == conds[..n] + [conds[n]];
    }
  }

  /** The placeholders of a clause, from left to right. */
  function Placeholders(conds: seq<Cond>): seq<nat> {
    if conds == [] then [] else Placeholders(conds[..|conds| - 1]) + CondPlaceholders(conds[|conds| - 1])
  }

  function CondPlaceholders(c: Cond): seq<nat> {
    match c
    case IsNull(_) => []
    case IsNotNull(_) => []
    case InList(_, params) => params
    case Compare(_, _, i) => [i]
  }

  /** from, from + 1, ... : `n` numbers. */
  function Upto(from: nat, n: nat): (s: seq<nat>)
    ensures |s| == n
  {
    seq(n, i requires 0 <= i => from + i)
  }

  // ----- the compiler -----

  datatype Compiled = Compiled(conds: seq<Cond>, args: seq<string>, views: seq<FilterView>)

  function Trimmed(items: seq<string>): (t: seq<string>)
    ensures |t| == |items|
  {
    seq(|items|, i requires 0 <= i < |items| => TrimSpace(items[i]))
  }

  /** The condition and the arguments of one accepted filter when `n` arguments are there already. */
  function CompileOne(f: FilterView, n: nat): (Cond, seq<string>)
    requires KnownOp(f)
  {
    if f.op == "is" && f.val == "null" then (IsNull(f.col), [])
    else if f.op == "is" && f.val == "notnull" then (IsNotNull(f.col), [])
    else if f.op == "in" then
      var items := Split(f.val, ',');
      (InList(f.col, Upto(n + 1, |items|)), Trimmed(items))
    else (Compare(f.col, SqlOpOf(f.op).value, n + 1), [f.val])
  }

  function Compile(params: seq<string>, colSet: map<string, bool>): Compiled {
    if params == [] then Compiled([], [], [])
    else
      var c := Compile(params[..|params| - 1], colSet);
      match Accepted(params[|params| - 1], colSet)
      case None => c
      case Some(f) =>
        var (cond, args) := CompileOne(f, |c.args|);
        Compiled(c.conds + [cond], c.args + args, c.views + [f])
  }

  lemma CompileSnoc(params: seq<string>, p: string, colSet: map<string, bool>)
    ensures Compile(params + [p], colSet) ==
      var c := Compile(params, colSet);
      match Accepted(p, colSet)
      case None => c
      case Some(f) => Compiled(c.conds + [CompileOne(f, |c.args|).0], c.args + CompileOne(f, |c.args|).1, c.views + [f])
  {
    hide Accepted, CompileOne;
    assert (params + [p])[..|params|] == params;
  }

  // ----- the clause means what the filters say -----

  predicate Within(params: seq<nat>, n: nat) {
    forall i :: 0 <= i < |params| ==> 0 < params[i] <= n
  }

  /** Every condition only reads arguments that are there. */
  predicate Bound(conds: seq<Cond>, n: nat) {
    forall i :: 0 <= i < |conds| ==> Within(CondPlaceholders(conds[i]), n)
  }

  lemma BoundSnoc(conds: seq<Cond>, c: Cond, n: nat, m: nat)
    requires Bound(conds, n) && CondPlaceholders(c) == Upto(n + 1, m)
    ensures Bound(conds + [c], n + m)
  {
    hide CondPlaceholders;
    forall i | 0 <= i < |conds| ensures Within(CondPlaceholders((conds + [c])[i]), n + m) {
      assert Within(CondPlaceholders(conds[i]), n);
    }
  }

  lemma {:induction false} InArgsMore(k: Collation, v: Option<string>, params: seq<nat>, args: seq<string>, more: seq<string>)
    requires Within(params, |args|)
    ensures InArgs(k, v, params, args + more) == InArgs(k, v, params, args)
  {
    if params != [] {
      InArgsMore(k, v, params[..|params| - 1], args, more);
    }
  }

  lemma EvalCondMore(k: Collation, c: Cond, row: Row, args: seq<string>, more: seq<string>)
    requires Within(CondPlaceholders(c), |args|)
    ensures EvalCond(k, c, row, args + more) == EvalCond(k, c, row, args)
  {
    match c
    case InList(col, params) =>
      assert CondPlaceholders(c) == params;
      InArgsMore(k, row(col), params, args, more);
    case Compare(col, op, i) => assert CondPlaceholders(c)[0] == i;
    case _ =>
  }

  lemma {:induction false} EvalWhereMore(k: Collation, conds: seq<Cond>, row: Row, args: seq<string>, more: seq<string>)
    requires Bound(conds, |args|)
    ensures EvalWhere(k, conds, row, args + more) == EvalWhere(k, conds, row, args)
  {
    hide EvalCond, CondPlaceholders;
    if conds != [] {
      var n := |conds| - 1;
      EvalWhereMore(k, conds[..n], row, args, more);
      EvalCondMore(k, conds[n], row, args, more);
    }
  }

  /** `IN` over fresh placeholders is membership among the arguments appended for them. */
  lemma {:induction false} InArgsMeans(k: Collation, v: Option<string>, args: seq<string>, items: seq<string>, n: nat)
    requires n <= |items|
    ensures InArgs(k, v, Upto(|args| + 1, n), args + items) ==
      if n == 0 then False else if v.None? then Unknown else Truly(exists i :: 0 <= i < n && items[i] == v.value)
  {
    if n > 0 {
      var params := Upto(|args| + 1, n);
      InArgsMeans(k, v, args, items, n - 1);
      assert params[..n - 1] == Upto(|args| + 1, n - 1);
      assert params[n - 1] == |args| + n;
      assert Arg(args + items, |args| + n) == items[n - 1];
    }
  }

  lemma InListMeans(k: Collation, f: FilterView, row: Row, args: seq<string>)
    requires f.op == "in"
    ensures EvalCond(k, CompileOne(f, |args|).0, row, args + CompileOne(f, |args|).1) == True <==> Means(k, f, row)
  {
    var v := row(f.col);
    var items := Split(f.val, ',');
    var texts := Trimmed(items);
    hide Split, TrimSpace;
    InArgsMeans(k, v, args, texts, |items|);
    if v.Some? {
      if i :| 0 <= i < |texts| && texts[i] == v.value {
        assert items[i] in items && v.value == TrimSpace(items[i]);
      }
      if it :| it in items && v.value == TrimSpace(it) {
        var i :| 0 <= i < |items| && items[i] == it;
        assert texts[i] == v.value;
      }
    }
  }

  lemma CompareMeans(k: Collation, f: FilterView, row: Row)
    requires KnownOp(f) && f.op != "is" && f.op != "in"
    ensures SqlOpOf(f.op).Some?
    ensures Means(k, f, row) <==> row(f.col).Some? && Holds(k, SqlOpOf(f.op).value, row(f.col).value, f.val)
  {
    hide Split, TrimSpace;
  }

  lemma OneMeans(k: Collation, f: FilterView, row: Row, args: seq<string>)
    requires KnownOp(f)
    ensures var (cond, more) := CompileOne(f, |args|);
      && (EvalCond(k, cond, row, args + more) == True <==> Means(k, f, row))
      && CondPlaceholders(cond) == Upto(|args| + 1, |more|) && cond.col == f.col
  {
    hide Split, TrimSpace, InArgs;
    if f.op == "in" {
      InListMeans(k, f, row, args);
    } else if f.op != "is" {
      CompareMeans(k, f, row);
      hide Holds, Means, SqlOpOf;
      assert (args + [f.val])[|args|] == f.val;
      assert Upto(|args| + 1, 1) == [|args| + 1];
    }
  }

  lemma NothingBound()
    ensures Bound([], 0)
  {
  }

  /** The placeholders are exactly $1 to $n in order, each used once; and every column is a schema column. */
  lemma {:induction false} PlaceholdersCount(params: seq<string>, colSet: map<string, bool>)
    ensures var c := Compile(params, colSet);
      && Placeholders(c.conds) == Upto(1, |c.args|) && Bound(c.conds, |c.args|)
      && |c.conds| == |c.views|
      && (forall i :: 0 <= i < |c.conds| ==> KnownColumn(colSet, c.conds[i].col))
      && (c.conds == [] ==> c.args == [])
  {
    hide CompileOne, Parse, KnownOp, CondPlaceholders, Bound;
    NothingBound();
    if params != [] {
      var n := |params| - 1;
      var before := Compile(params[..n], colSet);
      PlaceholdersCount(params[..n], colSet);
      match Accepted(params[n], colSet) {
        case None =>
        case Some(f) =>
          var m := |before.args|;
          OneMeans(Collation((a, b) => false, (a, b) => false, (a, b) => false), f, x => None, before.args);
          var (cond, more) := CompileOne(f, m);
          var c := Compile(params, colSet);
          assert c == Compiled(before.conds + [cond], before.args + more, before.views + [f]);
          assert c.conds[..|before.conds|] == before.conds;
          BoundSnoc(before.conds, cond, m, |more|);
          assert Upto(1, m) + Upto(m + 1, |more|) == Upto(1, m + |more|);
      }
    }
  }

  ghost predicate AllMean(params: seq<string>, colSet: map<string, bool>, k: Collation, row: Row) {
    forall p :: p in params && Accepted(p, colSet).Some? ==> Means(k, Accepted(p, colSet).value, row)
  }

  lemma AllMeanSnoc(params: seq<string>, p: string, colSet: map<string, bool>, k: Collation, row: Row)
    ensures AllMean(params + [p], colSet, k, row)
      <==> AllMean(params, colSet, k, row) && (Accepted(p, colSet).Some? ==> Means(k, Accepted(p, colSet).value, row))
  {
    hide Accepted, Means;
    assert forall q :: q in params + [p] <==> q in params || q == p;
  }

  lemma WhereSnoc(k: Collation, conds: seq<Cond>, c: Cond, row: Row, args: seq<string>)
    ensures EvalWhere(k, conds + [c], row, args) == And(EvalWhere(k, conds, row, args), EvalCond(k, c, row, args))
  {
    hide EvalCond;
    assert (conds + [c])[..|conds|] == conds;
  }

  /** The clause is true of a row exactly when every accepted filter says so, for every row including its
      nulls and every parameter list. */
  lemma {:induction false} WhereMeansFilters(params: seq<string>, colSet: map<string, bool>, k: Collation, row: Row)
    ensures var c := Compile(params, colSet);
      EvalWhere(k, c.conds, row, c.args) == True <==> AllMean(params, colSet, k, row)
  {
    hide CompileOne, Accepted, EvalCond, Means, Bound;
    if params != [] {
      var n := |params| - 1;
      var p := params[n];
      var before := Compile(params[..n], colSet);
      WhereMeansFilters(params[..n], colSet, k, row);
      PlaceholdersCount(params[..n], colSet);
      assert params == params[..n] + [p];
      hide Compile, AllMean, EvalWhere;
      AllMeanSnoc(params[..n], p, colSet, k, row);
      CompileSnoc(params[..n], p, colSet);
      match Accepted(p, colSet) {
        case None =>
        case Some(f) =>
          AcceptedKnown(p, colSet);
          OneMeans(k, f, row, before.args);
          var (cond, more) := CompileOne(f, |before.args|);
          EvalWhereMore(k, before.conds, row, before.args, more);
          WhereSnoc(k, before.conds, cond, row, before.args + more);
      }
    }
  }

  lemma AcceptedKnown(p: string, colSet: map<string, bool>)
    requires Accepted(p, colSet).Some?
    ensures KnownOp(Accepted(p, colSet).value)
  {
  }

  /** The views echo the accepted filters, in order. */
  function AcceptedAll(params: seq<string>, colSet: map<string, bool>): seq<FilterView> {
    if params == [] then []
    else
      AcceptedAll(params[..|params| - 1], colSet)
      + match Accepted(params[|params| - 1], colSet) case None => [] case Some(f) => [f]
  }

  lemma {:induction false} ViewsAreAccepted(params: seq<string>, colSet: map<string, bool>)
    ensures Compile(params, colSet).views == AcceptedAll(params, colSet)
  {
    hide CompileOne, Accepted;
    if params != [] { ViewsAreAccepted(params[..|params| - 1], colSet); }
  }

  /** A filter written out is parsed back, whatever its value, when neither column nor operator has a dot. */
  lemma ParseWritten(col: string, op: string, val: string)
    requires '.' !in col && '.' !in op
    ensures Parse(col + "." + op + "." + val) == Some(FilterView(col, op, val))
  {
    var rest := op + "." + val;
    var p := col + "." + rest;
    IndexIs(col, rest, '.');
    IndexIs(op, val, '.');
    assert p[|col| + 1..] == rest && p[..|col|] == col;
    assert rest[|op| + 1..] == val && rest[..|op|] == op;
    assert p == col + "." + op + "." + val;
  }

  lemma KnownOpExactly(f: FilterView)
    ensures KnownOp(f) <==>
      f.op in ["eq", "neq", "gt", "gte", "lt", "lte", "like", "ilike", "in"] || (f.op == "is" && f.val in ["null", "notnull"])
  {
  }

  /** Which filters count: those on a schema column with one of the nine operators, and the two tests for
      null. A filter without a value compares with the empty text; one without an operator is dropped. */
  lemma AcceptedExactly(col: string, op: string, val: string, colSet: map<string, bool>)
    requires '.' !in col && '.' !in op
    ensures Accepted(col + "." + op + "." + val, colSet) ==
      if (col in colSet && colSet[col]) &&
         (op in ["eq", "neq", "gt", "gte", "lt", "lte", "like", "ilike", "in"] || (op == "is" && val in ["null", "notnull"]))
      then Some(FilterView(col, op, val)) else None
    ensures Accepted(col + "." + op, colSet) ==
      if (col in colSet && colSet[col]) && op in ["eq", "neq", "gt", "gte", "lt", "lte", "like", "ilike", "in"]
      then Some(FilterView(col, op, "")) else None
    ensures Accepted(col, colSet) == None
  {
    ParseWritten(col, op, val);
    ParseShort(col, op);
    KnownOpExactly(FilterView(col, op, val));
    KnownOpExactly(FilterView(col, op, ""));
    hide Parse, KnownOp;
  }

  lemma ParseShort(col: string, op: string)
    requires '.' !in col && '.' !in op
    ensures Parse(col + "." + op) == Some(FilterView(col, op, ""))
    ensures Parse(col) == None
  {
    var p := col + "." + op;
    IndexIs(col, op, '.');
    assert p[|col| + 1..] == op && p[..|col|] == col;
    assert Index(op, '.') == |op| && Index(col, '.') == |col|;
  }

  // ----- the loop -----

  /** `strings.SplitN(p, ".", 3)` */
  function SplitThree(p: string): (parts: seq<string>)
    ensures 1 <= |parts| <= 3
  {
    var i := Index(p, '.');
    if i == |p| then [p]
    else
      var rest := p[i + 1..];
      var j := Index(rest, '.');
      if j == |rest| then [p[..i], rest] else [p[..i], rest[..j], rest[j + 1..]]
  }

  method BuildFilters(params: seq<string>, colSet: map<string, bool>)
    returns (conds: seq<Cond>, args: seq<string>, views: seq<FilterView>)
    ensures Placeholders(conds) == Upto(1, |args|)
    ensures forall i :: 0 <= i < |conds| ==> KnownColumn(colSet, conds[i].col)
    ensures forall k: Collation, row: Row :: EvalWhere(k, conds, row, args) == True <==> AllMean(params, colSet, k, row)
    ensures views == AcceptedAll(params, colSet)
  {
    hide *;
    conds, args, views := [], [], [];
    CompileNothing(colSet);
    var n := 0;
    while n < |params|
      invariant 0 <= n <= |params| && Compiled(conds, args, views) == Compile(params[..n], colSet)
    {
      CompileSnoc(params[..n], params[n], colSet);
      assert params[..n + 1] == params[..n] + [params[n]];
      conds, args, views := AddFilter(params[n], colSet, conds, args, views);
      n := n + 1;
    }
    assert params[..n] == params;
    PlaceholdersCount(params, colSet);
    ViewsAreAccepted(params, colSet);
    forall k: Collation, row: Row ensures EvalWhere(k, conds, row, args) == True <==> AllMean(params, colSet, k, row) {
      WhereMeansFilters(params, colSet, k, row);
    }
  }

  lemma CompileNothing(colSet: map<string, bool>)
    ensures Compile([], colSet) == Compiled([], [], [])
  {
  }

  /** One turn of the loop. */
  method AddFilter(p: string, colSet: map<string, bool>, conds: seq<Cond>, args: seq<string>, views: seq<FilterView>)
    returns (conds': seq<Cond>, args': seq<string>, views': seq<FilterView>)
    ensures Compiled(conds', args', views') ==
      match Accepted(p, colSet)
      case None => Compiled(conds, args, views)
      case Some(f) => Compiled(conds + [CompileOne(f, |args|).0], args + CompileOne(f, |args|).1, views + [f])
  {
    hide Split, TrimSpace, Index;
    conds', args', views' := conds, args, views;
    var parts := SplitThree(p);
    if |parts| < 2 || !KnownColumn(colSet, parts[0]) {
      return;
    }
    var col, op := parts[0], parts[1];
    var val := "";
    if |parts| == 3 {
      val := parts[2];
    }
    if op == "is" && val == "null" {
      conds' := conds + [IsNull(col)];
    } else if op == "is" && val == "notnull" {
      conds' := conds + [IsNotNull(col)];
    } else if op == "in" {
      var placeholders;
      placeholders, args' := BindItems(args, Split(val, ','));
      conds' := conds + [InList(col, placeholders)];
    } else {
      var sqlOp := SqlOpOf(op);
      if sqlOp.None? {
        return;
      }
      args' := args + [val];
      conds' := conds + [Compare(col, sqlOp.value, |args'|)];
    }
    views' := views + [FilterView(col, op, val)];
  }

  /** Binds every item of an `in` list as an argument of its own. */
  method BindItems(args: seq<string>, items: seq<string>) returns (params: seq<nat>, args': seq<string>)
    ensures params == Upto(|args| + 1, |items|) && args' == args + Trimmed(items)
  {
    hide TrimSpace;
    params, args' := [], args;
    var i := 0;
    while i < |items|
      invariant 0 <= i <= |items|
      invariant params == Upto(|args| + 1, i) && args' == args + Trimmed(items[..i])
    {
      assert Trimmed(items[..i + 1]) == Trimmed(items[..i]) + [TrimSpace(items[i])];
      args' := args' + [TrimSpace(items[i])];
      params := params + [|args'|];
      i := i + 1;
    }
    assert items[..i] == items;
  }
}
