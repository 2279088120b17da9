/**
 * The `notas` relation of app.py: one row per recorded grade.
 * Columns: id SERIAL PRIMARY KEY, aluno TEXT, professor TEXT, nota REAL, datahora TEXT.
 */
module Records {
  import opened Wrappers

  /**
   * One grade record. `aluno` is None when the form carried no student field
   * (the column is then NULL); `datahora` holds an ISO-8601 timestamp as text.
   */
  datatype Row = Row(id: int, aluno: Option<string>, professor: string, nota: real, datahora: string)

  /** The accepted range of a grade: 0 to 10, both ends included. */
  predicate InRange(v: real) {
    0.0 <= v <= 10.0
  }

  /** True when some row of `rows` carries the identifier `id`. */
  predicate HasId(rows: seq<Row>, id: int) {
    exists i :: 0 <= i < |rows| && rows[i].id == id
  }
}
