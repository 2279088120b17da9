/**
 * The report query of `relatorio` (app.py:161-184): the builder that turns the
 * report form into SQL text plus bound parameters, the meaning of that text as
 * a filter over the `notas` rows, and the rows the query selects.
 */
module ReportQuery {
  import opened Wrappers
  import opened Records

  /** The report form. Each field is None when the request does not carry it. */
  datatype Filter = Filter(aluno: Option<string>, professor: Option<string>,
                           dataIni: Option<string>, dataFim: Option<string>)

  /** Python truthiness of a form field: present and not the empty string. */
  predicate Present(field: Option<string>) {
    field.Some? && field.value != ""
  }

  /** The query every report starts from (written in two pieces, select list and source). */
  const SelectSql: string := "SELECT id, aluno, professor, nota, datahora" + " FROM notas WHERE 1=1"

  /** The placeholder psycopg2 replaces with a bound parameter. */
  const Placeholder: string := "%s"

  /** Appended to the end date so that the bound reaches the end of that day. */
  const EndOfDay: string := "T23:59:59"

  /** The four conjuncts the builder may append, in the order it appends them. */
  datatype Clause = AlunoEq | ProfessorEq | DatahoraFrom | DatahoraUntil

  /** Position of a clause in the builder's fixed order. */
  function Rank(c: Clause): nat {
    match c
    case AlunoEq => 0
    case ProfessorEq => 1
    case DatahoraFrom => 2
    case DatahoraUntil => 3
  }

  /** The text of a clause before its placeholder. */
  function ColumnTest(c: Clause): string {
    match c
    case AlunoEq => " AND aluno = "
    case ProfessorEq => " AND professor = "
    case DatahoraFrom => " AND datahora >= "
    case DatahoraUntil => " AND datahora <= "
  }

  /** The SQL fragment of a clause, e.g. ` AND aluno = %s`. */
  function ClauseSql(c: Clause): (s: string)
    ensures |s| > 0
  {
    ColumnTest(c) + Placeholder
  }

  /** A clause together with the parameter bound to its placeholder. */
  datatype Criterion = Criterion(clause: Clause, param: string)

  /**
   * Comparison of TEXT values: lexicographic order on code points, with a
   * proper prefix ordered before the longer string.
   */
  predicate LexLeq(a: string, b: string) {
    a == [] || (b != [] && (a[0] < b[0] || (a[0] == b[0] && LexLeq(a[1..], b[1..]))))
  }

  /** SQL meaning of one bound clause on one row; `NULL = p` is never true. */
  predicate Holds(c: Criterion, row: Row) {
    match c.clause
    case AlunoEq => row.aluno == Some(c.param)
    case ProfessorEq => row.professor == c.param
    case DatahoraFrom => LexLeq(c.param, row.datahora)
    case DatahoraUntil => LexLeq(row.datahora, c.param)
  }

  /** The WHERE condition `1=1 AND c0 AND c1 ...` on one row. */
  predicate HoldsAll(cs: seq<Criterion>, row: Row) {
    forall i :: 0 <= i < |cs| ==> Holds(cs[i], row)
  }

  /**
   * The report predicate stated from the form alone: every non-empty field
   * constrains its column, and an empty or absent field constrains nothing.
   */
  predicate Matches(row: Row, f: Filter) {
    && (Present(f.aluno) ==> row.aluno == Some(f.aluno.value))
    && (Present(f.professor) ==> row.professor == f.professor.value)
    && (Present(f.dataIni) ==> LexLeq(f.dataIni.value, row.datahora))
    && (Present(f.dataFim) ==> LexLeq(row.datahora, f.dataFim.value + EndOfDay))
  }

  /** The criteria the builder produces for a form, in the order it appends them. */
  function Criteria(f: Filter): seq<Criterion> {
    (if Present(f.aluno) then [Criterion(AlunoEq, f.aluno.value)] else [])
    + (if Present(f.professor) then [Criterion(ProfessorEq, f.professor.value)] else [])
    + (if Present(f.dataIni) then [Criterion(DatahoraFrom, f.dataIni.value)] else [])
    + (if Present(f.dataFim) then [Criterion(DatahoraUntil, f.dataFim.value + EndOfDay)] else [])
  }

  /** The clauses of a run of criteria, in order. */
  function ClausesOf(cs: seq<Criterion>): seq<Clause> {
    seq(|cs|, i requires 0 <= i < |cs| => cs[i].clause)
  }

  /** The parameter values of a run of criteria, in order. */
  function ParamsOf(cs: seq<Criterion>): seq<string> {
    seq(|cs|, i requires 0 <= i < |cs| => cs[i].param)
  }

  /** The text of a run of clauses, concatenated in order. */
  function ClausesSql(cs: seq<Clause>): string {
    if cs == [] then "" else ClauseSql(cs[0]) + ClausesSql(cs[1..])
  }

  /** The full query text the builder produces for a form. */
  function QueryText(f: Filter): string {
    SelectSql + ClausesSql(ClausesOf(Criteria(f)))
  }

  /** Number of `%s` placeholders in a text, read left to right. */
  function CountPlaceholders(s: string): nat {
    if |s| < 2 then 0
    else if s[..2] == "%s" then 1 + CountPlaceholders(s[2..])
    else CountPlaceholders(s[1..])
  }

  /** The clause whose fragment begins `s`, if any. */
  function LeadingClause(s: string): (r: Option<Clause>)
    ensures r.Some? ==> ClauseSql(r.value) <= s
  {
    if ClauseSql(AlunoEq) <= s then Some(AlunoEq)
    else if ClauseSql(ProfessorEq) <= s then Some(ProfessorEq)
    else if ClauseSql(DatahoraFrom) <= s then Some(DatahoraFrom)
    else if ClauseSql(DatahoraUntil) <= s then Some(DatahoraUntil)
    else None
  }

  /** Reads a text back as a run of clause fragments; None if it is not one. */
  function ParseClauses(s: string): Option<seq<Clause>>
    decreases |s|
  {
    if s == [] then Some([])
    else match LeadingClause(s)
      case None => None
      case Some(c) =>
        match ParseClauses(s[|ClauseSql(c)|..])
        case None => None
        case Some(cs) => Some([c] + cs)
  }

  /**
   * What executing `query` with `params` means: the query must be the report
   * SELECT followed by clause fragments, and the parameters are bound to the
   * placeholders in order. None when the text or the parameter count does not fit.
   */
  function Bind(query: string, params: seq<string>): Option<seq<Criterion>> {
    if !(SelectSql <= query) then None
    else match ParseClauses(query[|SelectSql|..])
      case None => None
      case Some(cs) =>
        if |cs| != |params| then None
        else Some(seq(|cs|, i requires 0 <= i < |cs| => Criterion(cs[i], params[i])))
  }

  /** The rows of `rows` that satisfy every criterion, in table order. */
  function Select(rows: seq<Row>, cs: seq<Criterion>): (r: seq<Row>)
    ensures |r| <= |rows|
    ensures forall x :: x in r <==> x in rows && HoldsAll(cs, x)
    decreases |rows|
  {
    if rows == [] then []
    else
      var init, last := rows[..|rows| - 1], rows[|rows| - 1];
      assert rows == init + [last];
      Select(init, cs) + (if HoldsAll(cs, last) then [last] else [])
  }

  /**
   * The builder of `relatorio`: starts from `WHERE 1=1` and, for each
   * non-empty field in the order aluno, professor, data_ini, data_fim,
   * appends one clause to the text and one value to the parameters.
   * The text is the one QueryText gives, it has one placeholder per
   * parameter, and bound to its parameters it means exactly Matches.
   */
  method BuildQuery(f: Filter) returns (query: string, params: seq<string>)
    ensures query == QueryText(f) && params == ParamsOf(Criteria(f))
    ensures CountPlaceholders(query) == |params|
    ensures Bind(query, params) == Some(Criteria(f))
    ensures forall row :: HoldsAll(Bind(query, params).value, row) <==> Matches(row, f)
  {
    // The criterion each field contributes: none when the field is empty or absent.
    ghost var a := if Present(f.aluno) then [Criterion(AlunoEq, f.aluno.value)] else [];
    ghost var p := if Present(f.professor) then [Criterion(ProfessorEq, f.professor.value)] else [];
    ghost var i := if Present(f.dataIni) then [Criterion(DatahoraFrom, f.dataIni.value)] else [];
    ghost var e := if Present(f.dataFim) then [Criterion(DatahoraUntil, f.dataFim.value + EndOfDay)] else [];
    assert Criteria(f) == a + p + i + e;
    query := SelectSql;
    params := [];
    assert query == SelectSql + ClausesSql(ClausesOf([])) && params == ParamsOf([]);
    if Present(f.aluno) {
      AppendStep(query, params, [], a);
      query := query + ClauseSql(AlunoEq);
      params := params + [f.aluno.value];
    }
    SameStep(query, params, [], a);
    if Present(f.professor) {
      AppendStep(query, params, a, p);
      query := query + ClauseSql(ProfessorEq);
      params := params + [f.professor.value];
    }
    SameStep(query, params, a, p);
    if Present(f.dataIni) {
      AppendStep(query, params, a + p, i);
      query := query + ClauseSql(DatahoraFrom);
      params := params + [f.dataIni.value];
    }
    SameStep(query, params, a + p, i);
    if Present(f.dataFim) {
      AppendStep(query, params, a + p + i, e);
      query := query + ClauseSql(DatahoraUntil);
      params := params + [f.dataFim.value + EndOfDay];
    }
    SameStep(query, params, a + p + i, e);
    PlaceholdersMatchParams(f);
    BindBuiltQuery(f);
    forall row ensures HoldsAll(Criteria(f), row) <==> Matches(row, f) {
      CriteriaMeaning(f, row);
    }
  }

  /** One builder step: appending criterion `step[0]` to the text and parameters built so far. */
  lemma AppendStep(query: string, params: seq<string>, done: seq<Criterion>, step: seq<Criterion>)
    requires query == SelectSql + ClausesSql(ClausesOf(done)) && params == ParamsOf(done)
    requires |step| == 1
    ensures query + ClauseSql(step[0].clause) == SelectSql + ClausesSql(ClausesOf(done + step))
    ensures params + [step[0].param] == ParamsOf(done + step)
  {
    AppendCriterion(done, step[0]);
    assert step == [step[0]];
  }

  /** A builder step that appends nothing keeps text and parameters as they are. */
  lemma SameStep(query: string, params: seq<string>, done: seq<Criterion>, step: seq<Criterion>)
    requires (query == SelectSql + ClausesSql(ClausesOf(done)) && params == ParamsOf(done))
          || (query == SelectSql + ClausesSql(ClausesOf(done + step)) && params == ParamsOf(done + step))
    requires step == [] || (query == SelectSql + ClausesSql(ClausesOf(done + step)) && params == ParamsOf(done + step))
    ensures query == SelectSql + ClausesSql(ClausesOf(done + step)) && params == ParamsOf(done + step)
  {
    if step == [] {
      assert done + step == done;
    }
  }

  /** Appending one criterion appends its fragment to the text and its value to the parameters. */
  lemma AppendCriterion(cs: seq<Criterion>, c: Criterion)
    ensures ClausesOf(cs + [c]) == ClausesOf(cs) + [c.clause]
    ensures ParamsOf(cs + [c]) == ParamsOf(cs) + [c.param]
    ensures ClausesSql(ClausesOf(cs + [c])) == ClausesSql(ClausesOf(cs)) + ClauseSql(c.clause)
  {
    assert ClausesOf(cs + [c]) == ClausesOf(cs) + [c.clause];
    ClausesSqlConcat(ClausesOf(cs), [c.clause]);
    assert [c.clause][1..] == [];
  }

  /** The text of a concatenation of clause runs is the concatenation of their texts. */
  lemma {:induction false} ClausesSqlConcat(a: seq<Clause>, b: seq<Clause>)
    ensures ClausesSql(a + b) == ClausesSql(a) + ClausesSql(b)
    decreases |a|
  {
    if a == [] {
      assert a + b == b;
    } else {
      assert (a + b)[0] == a[0];
      assert (a + b)[1..] == a[1..] + b;
      ClausesSqlConcat(a[1..], b);
    }
  }

  /** Counting placeholders distributes over a concatenation whose left part does not end in `%`. */
  lemma {:induction false} CountPlaceholdersConcat(a: string, b: string)
    requires a == [] || a[|a| - 1] != '%'
    ensures CountPlaceholders(a + b) == CountPlaceholders(a) + CountPlaceholders(b)
    decreases |a|
  {
    if a == [] {
      assert a + b == b;
    } else if |a| == 1 {
      if |a + b| >= 2 {
        assert (a + b)[..2][0] == a[0];
        assert (a + b)[1..] == b;
      } else {
        assert b == [];
        assert a + b == a;
      }
    } else if a[..2] == "%s" {
      assert (a + b)[..2] == a[..2];
      assert (a + b)[2..] == a[2..] + b;
      CountPlaceholdersConcat(a[2..], b);
    } else {
      assert (a + b)[..2] == a[..2];
      assert (a + b)[1..] == a[1..] + b;
      CountPlaceholdersConcat(a[1..], b);
    }
  }

  /** A text without `%` holds no placeholder. */
  lemma {:induction false} NoPercentNoPlaceholder(s: string)
    requires '%' !in s
    ensures CountPlaceholders(s) == 0
    decreases |s|
  {
    if |s| >= 2 {
      assert s[..2][0] == s[0];
      assert forall ch :: ch in s[1..] ==> ch in s;
      NoPercentNoPlaceholder(s[1..]);
    }
  }

  /** Every clause fragment carries exactly one placeholder and ends in `s`. */
  lemma OnePlaceholderPerClause(c: Clause)
    ensures CountPlaceholders(ClauseSql(c)) == 1
    ensures ClauseSql(c)[|ClauseSql(c)| - 1] == 's'
  {
    NoPercentNoPlaceholder(ColumnTest(c));
    CountPlaceholdersConcat(ColumnTest(c), Placeholder);
    assert Placeholder[..2] == "%s" && Placeholder[2..] == [];
  }

  /** A run of clauses carries one placeholder per clause. */
  lemma {:induction false} ClausesSqlPlaceholders(cs: seq<Clause>)
    ensures CountPlaceholders(ClausesSql(cs)) == |cs|
    decreases |cs|
  {
    if cs != [] {
      OnePlaceholderPerClause(cs[0]);
      CountPlaceholdersConcat(ClauseSql(cs[0]), ClausesSql(cs[1..]));
      ClausesSqlPlaceholders(cs[1..]);
    }
  }

  /** The built query has exactly one `%s` placeholder per parameter. */
  lemma PlaceholdersMatchParams(f: Filter)
    ensures CountPlaceholders(QueryText(f)) == |ParamsOf(Criteria(f))|
  {
    var cs := ClausesOf(Criteria(f));
    NoPercentNoPlaceholder(SelectSql);
    CountPlaceholdersConcat(SelectSql, ClausesSql(cs));
    ClausesSqlPlaceholders(cs);
  }

  /** Two different fragments differ at a position inside both, so neither begins the other's text. */
  lemma FragmentsDiffer(c: Clause, d: Clause, rest: string)
    requires c != d
    ensures !(ClauseSql(d) <= ClauseSql(c) + rest)
  {
    var k := if {c, d} == {DatahoraFrom, DatahoraUntil} then 14 else 5;
    assert ClauseSql(d)[k] != ClauseSql(c)[k];
    assert (ClauseSql(c) + rest)[k] == ClauseSql(c)[k];
  }

  /** A text that starts with the fragment of `c` is read as starting with `c`. */
  lemma LeadingClauseOf(c: Clause, rest: string)
    ensures LeadingClause(ClauseSql(c) + rest) == Some(c)
  {
    var s := ClauseSql(c) + rest;
    assert ClauseSql(c) <= s;
    if c != AlunoEq { FragmentsDiffer(c, AlunoEq, rest); }
    if c != ProfessorEq { FragmentsDiffer(c, ProfessorEq, rest); }
    if c != DatahoraFrom { FragmentsDiffer(c, DatahoraFrom, rest); }
  }

  /** Reading the text of a run of clauses gives back that run. */
  lemma {:induction false} ParseRoundTrip(cs: seq<Clause>)
    ensures ParseClauses(ClausesSql(cs)) == Some(cs)
    decreases |cs|
  {
    if cs != [] {
      var rest := ClausesSql(cs[1..]);
      LeadingClauseOf(cs[0], rest);
      assert (ClauseSql(cs[0]) + rest)[|ClauseSql(cs[0])|..] == rest;
      ParseRoundTrip(cs[1..]);
      assert [cs[0]] + cs[1..] == cs;
    }
  }

  /** Binding the built text to the built parameters gives back exactly the criteria of the form. */
  lemma BindBuiltQuery(f: Filter)
    ensures Bind(QueryText(f), ParamsOf(Criteria(f))) == Some(Criteria(f))
  {
    var cr := Criteria(f);
    var q := QueryText(f);
    assert SelectSql <= q;
    assert q[|SelectSql|..] == ClausesSql(ClausesOf(cr));
    ParseRoundTrip(ClausesOf(cr));
    var params := ParamsOf(cr);
    var cs := ClausesOf(cr);
    assert seq(|cs|, i requires 0 <= i < |cs| => Criterion(cs[i], params[i])) == cr;
  }

  /** A row satisfies a concatenation of criteria iff it satisfies both parts. */
  lemma HoldsAllConcat(a: seq<Criterion>, b: seq<Criterion>, row: Row)
    ensures HoldsAll(a + b, row) <==> HoldsAll(a, row) && HoldsAll(b, row)
  {
    if HoldsAll(a, row) && HoldsAll(b, row) {
      forall i | 0 <= i < |a + b| ensures Holds((a + b)[i], row) {
        if i >= |a| { assert (a + b)[i] == b[i - |a|]; }
      }
    }
    if HoldsAll(a + b, row) {
      forall i | 0 <= i < |a| ensures Holds(a[i], row) {
        assert (a + b)[i] == a[i];
      }
      forall i | 0 <= i < |b| ensures Holds(b[i], row) {
        assert (a + b)[|a| + i] == b[i];
      }
    }
  }

  /** A run of at most one criterion holds iff it is empty or its criterion holds. */
  lemma HoldsAllAtMostOne(cs: seq<Criterion>, row: Row)
    requires |cs| <= 1
    ensures HoldsAll(cs, row) <==> (cs == [] || Holds(cs[0], row))
  {
  }

  /** A row satisfies every criterion the builder produces exactly when it matches the form. */
  lemma CriteriaMeaning(f: Filter, row: Row)
    ensures HoldsAll(Criteria(f), row) <==> Matches(row, f)
  {
    var a := if Present(f.aluno) then [Criterion(AlunoEq, f.aluno.value)] else [];
    var p := if Present(f.professor) then [Criterion(ProfessorEq, f.professor.value)] else [];
    var i := if Present(f.dataIni) then [Criterion(DatahoraFrom, f.dataIni.value)] else [];
    var e := if Present(f.dataFim) then [Criterion(DatahoraUntil, f.dataFim.value + EndOfDay)] else [];
    assert Criteria(f) == a + p + i + e;
    HoldsAllAtMostOne(a, row);
    HoldsAllAtMostOne(p, row);
    HoldsAllAtMostOne(i, row);
    HoldsAllAtMostOne(e, row);
    HoldsAllConcat(a, p, row);
    HoldsAllConcat(a + p, i, row);
    HoldsAllConcat(a + p + i, e, row);
  }

  /** The criteria appear in the fixed order aluno, professor, data_ini, data_fim, each with its own field's value. */
  lemma CriteriaInFixedOrder(f: Filter)
    ensures forall i, j :: 0 <= i < j < |Criteria(f)| ==> Rank(Criteria(f)[i].clause) < Rank(Criteria(f)[j].clause)
    ensures forall c :: c in Criteria(f) ==>
      match c.clause
      case AlunoEq => Present(f.aluno) && c.param == f.aluno.value
      case ProfessorEq => Present(f.professor) && c.param == f.professor.value
      case DatahoraFrom => Present(f.dataIni) && c.param == f.dataIni.value
      case DatahoraUntil => Present(f.dataFim) && c.param == f.dataFim.value + EndOfDay
  {
  }

  /** The query text depends only on which fields are present, never on the values typed in them. */
  lemma QueryDependsOnlyOnPresence(f: Filter, g: Filter)
    requires Present(f.aluno) == Present(g.aluno) && Present(f.professor) == Present(g.professor)
    requires Present(f.dataIni) == Present(g.dataIni) && Present(f.dataFim) == Present(g.dataFim)
    ensures QueryText(f) == QueryText(g)
  {
    assert ClausesOf(Criteria(f)) == ClausesOf(Criteria(g));
  }

  /** With no criterion every row is selected, in table order. */
  lemma {:induction false} SelectWithoutCriteria(rows: seq<Row>)
    ensures Select(rows, []) == rows
    decreases |rows|
  {
    if rows != [] {
      SelectWithoutCriteria(rows[..|rows| - 1]);
      assert rows == rows[..|rows| - 1] + [rows[|rows| - 1]];
    }
  }

  /** A form with every field empty or absent reports every row. */
  lemma EmptyFilterSelectsAll(rows: seq<Row>, f: Filter)
    requires !Present(f.aluno) && !Present(f.professor) && !Present(f.dataIni) && !Present(f.dataFim)
    ensures Select(rows, Criteria(f)) == rows
  {
    SelectWithoutCriteria(rows);
  }

  /** Text order ignores a shared prefix. */
  lemma {:induction false} LexLeqCommonPrefix(p: string, a: string, b: string)
    ensures LexLeq(p + a, p + b) <==> LexLeq(a, b)
    decreases |p|
  {
    if p != [] {
      assert (p + a)[0] == p[0] && (p + b)[0] == p[0];
      assert (p + a)[1..] == p[1..] + a && (p + b)[1..] == p[1..] + b;
      LexLeqCommonPrefix(p[1..], a, b);
    } else {
      assert p + a == a && p + b == b;
    }
  }

  /**
   * The start date admits every timestamp of that day, and the end bound
   * admits a timestamp of the end day at 23:59:59 exactly when nothing
   * follows the seconds: a fractional part makes it sort after the bound.
   */
  lemma DateBounds(d: string, t: string, frac: string)
    ensures LexLeq(d, d + t)
    ensures LexLeq(d + EndOfDay + frac, d + EndOfDay) <==> frac == []
  {
    LexLeqCommonPrefix(d, [], t);
    assert d + [] == d;
    LexLeqCommonPrefix(d + EndOfDay, frac, []);
    assert d + EndOfDay + [] == d + EndOfDay;
  }

  /**
   * Three grades (Alice 7.5 by ProfX, Bob 9.0 by ProfX, Alice 4.0 by ProfY):
   * a report on student Alice selects the first and the third.
   */
  lemma StudentFilterScenario(r1: Row, r2: Row, r3: Row)
    requires r1 == Row(1, Some("Alice"), "ProfX", 7.5, "2025-03-01T10:00:00")
    requires r2 == Row(2, Some("Bob"), "ProfX", 9.0, "2025-03-01T11:00:00")
    requires r3 == Row(3, Some("Alice"), "ProfY", 4.0, "2025-03-02T09:00:00")
    ensures Select([r1, r2, r3], Criteria(Filter(Some("Alice"), None, None, Some("")))) == [r1, r3]
  {
    var cs := Criteria(Filter(Some("Alice"), None, None, Some("")));
    assert cs == [Criterion(AlunoEq, "Alice")];
    assert |"Bob"| != |"Alice"|;
    assert !Holds(cs[0], r2);
    assert HoldsAll(cs, r1) && !HoldsAll(cs, r2) && HoldsAll(cs, r3);
    assert [r1, r2, r3][..2] == [r1, r2] && [r1, r2][..1] == [r1] && [r1][..0] == [];
  }
}
