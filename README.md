# Gerenciador de Notas — grade table, report query, CSV rows and password check

A Dafny model of the logic inside `app.py`, a small Flask application in which
professors record grades (`notas`) for students, edit them, and run filtered
reports that are also exported as CSV. The model keeps what the request
handlers decide and leaves the web, database and crypto plumbing outside:

- **Grade table** (`GradeStore.GradeTable`): the `notas` relation as a sequence
  of rows `(id, aluno, professor, nota, datahora)` with the SERIAL counter
  `nextId`. `Submit` is the POST of `index` (range check, then one appended
  row); `Edit` is `editar_nota` (access check, lookup by id, rewrite of `nota`
  only); `Execute` runs a bound report query over the rows; `Report` is
  `relatorio` (access check, query building, execution, export rows). The
  object invariant says ids are positive, increasing and below the counter and
  that every stored grade is within 0..10.
- **Report query** (`ReportQuery`): `BuildQuery` appends, for each non-empty
  field in the order aluno, professor, data_ini, data_fim, one clause
  ` AND column op %s` to `... WHERE 1=1` and one value to the parameter list
  (data_fim padded with `T23:59:59`). The meaning of the SQL text is given by
  reading it back (`ParseClauses`) and binding the parameters to its
  placeholders in order (`Bind`); `Matches` states the report predicate from
  the form alone, and the lemmas connect the two. `datahora` is TEXT, so the
  date bounds are string comparisons (`LexLeq`).
- **CSV rows** (`CsvExport`): the header `Aluno, Professor, Nota, DataHora`
  followed by one five-field row `(id, aluno, professor, nota, datahora)` per
  fetched record, as handed to `csv.writer(...).writerows`, with a reader that
  gives the records back at the level of typed fields.
- **Password change** (`PasswordChange`): the if/elif chain of
  `alterar_senha` — current password wrong, then new password shorter than 6,
  then confirmation mismatch — and the update of the stored hash, which happens
  only when every check passes. `verificar_senha` is a function parameter.

Three behaviours of app.py worth noting: an edit leaves `professor` as it
was; the export header has four titles while each data row has five fields,
id first; the report query has no `ORDER BY`, so the database promises no
order of the result rows.

## Model

| member | source | states |
|---|---|---|
| `GradeStore.CheckNota` | app.py:136-149 | A grade is accepted exactly when it parses to a number v with 0 <= v <= 10 (both ends included), and then v itself is kept; an unparsable value is "Nota inválida.", any other refusal (out of range, nan, inf) is "A nota deve estar entre 0 e 10." |
| `GradeStore.UpdateNota` | app.py:210 | `UPDATE ... SET nota WHERE id`: same number of rows, every row with another id is identical, the row with that id keeps id, aluno, professor and datahora and gets the new nota. |
| `GradeStore.GradeTable.constructor` | app.py:33-39 | The table starts empty with the SERIAL counter at 1, satisfying the table invariant. |
| `GradeStore.GradeTable.Submit` | app.py:133-149 | An accepted grade appends exactly one row (next id, aluno, professor = logged-in user, nota = the parsed value, the given timestamp) and leaves earlier rows as they were; a refused one leaves rows and counter unchanged; the invariant (unique increasing ids, grades in range) is kept. |
| `GradeStore.GradeTable.Find` | app.py:201-204 | Returns a position holding the requested id, or None exactly when no row has that id. |
| `GradeStore.GradeTable.Edit` | app.py:196-217 | No report access gives the redirect and an unknown id gives "Nota não encontrada."; otherwise the page shows the row as read before the update, and only a POST with an accepted grade changes the table, by UpdateNota of that id; every other path leaves all rows unchanged. |
| `GradeStore.GradeTable.Execute` | app.py:181-184 | Running a query yields an error exactly when the text is not a report query or the parameter count differs from the placeholders; otherwise exactly the rows satisfying every bound clause, in table order. |
| `GradeStore.GradeTable.Report` | app.py:159-186 | No report access gives the redirect; a GET lists nothing and exports nothing; a POST lists a row iff it is in the table and satisfies every non-empty field of the form, and its export rows are the header followed by exactly those rows. |
| `ReportQuery.BuildQuery` | app.py:167-180 | The built text has one `%s` per parameter, binding the parameters to it gives back the form's criteria in order, and a row satisfies the bound query iff it matches the form. |
| `ReportQuery.PlaceholdersMatchParams` | app.py:167-180 | The query text carries exactly as many `%s` placeholders as there are parameters. |
| `ReportQuery.OnePlaceholderPerClause` | app.py:170-179 | Each appended clause carries exactly one placeholder. |
| `ReportQuery.ParseRoundTrip` | app.py:169-180 | Reading back the text of any run of appended clauses gives that run, so the text determines the clauses and their order. |
| `ReportQuery.BindBuiltQuery` | app.py:167-183 | Executing the built text with the built parameter list binds each value to the clause appended with it: the result is exactly the form's criteria. |
| `ReportQuery.CriteriaMeaning` | app.py:169-180 | A row satisfies all built criteria iff aluno equals the student field, professor equals the professor field, datahora >= data_ini and datahora <= data_fim + "T23:59:59", each only when that field is non-empty. |
| `ReportQuery.CriteriaInFixedOrder` | app.py:169-180 | Clauses come in the fixed order aluno, professor, data_ini, data_fim, each present only for a non-empty field and carrying that field's own value (data_fim padded). |
| `ReportQuery.QueryDependsOnlyOnPresence` | app.py:167-180 | Two forms with the same non-empty fields give the same query text, whatever values were typed: user values never reach the SQL text. |
| `ReportQuery.Select` | app.py:183-184 | The fetched rows are exactly the table rows satisfying every criterion, never more rows than the table. |
| `ReportQuery.SelectWithoutCriteria` | app.py:167 | With no clause after `WHERE 1=1` every row is returned. |
| `ReportQuery.EmptyFilterSelectsAll` | app.py:169-180 | A form whose fields are all empty or absent reports every row of the table. |
| `ReportQuery.DateBounds` | app.py:175-180 | The start date admits every timestamp of that day; the end bound admits `data_fim + "T23:59:59"` itself but not a timestamp of that second with a fractional part. |
| `ReportQuery.StudentFilterScenario` | app.py:169-184 | With rows Alice/ProfX, Bob/ProfX, Alice/ProfY, a report on student Alice returns the first and third rows. |
| `CsvExport.ExportRows` | app.py:185-186 | The export has 1 + number of records rows: the four-title header first, then for each record in order a five-field row that reads back as that record. |
| `CsvExport.RowCellsRoundTrip` | app.py:167 | The five fields of a fetched row (id, aluno or NULL, professor, nota, datahora) read back as the same row. |
| `CsvExport.DataRowsShape` | app.py:186 | There is one data row per record, the k-th row holding the k-th record's fields. |
| `CsvExport.DataRowsRoundTrip` | app.py:186 | Reading the data rows back gives the records in the same order. |
| `CsvExport.ExportRoundTrip` | app.py:185-186 | Reading the whole export back at the level of typed fields (header first) gives exactly the exported records, in order. |
| `PasswordChange.Validate` | app.py:113-119 | The change is accepted iff the current password verifies, the new one has at least 6 characters and equals its confirmation. |
| `PasswordChange.ValidateReportsFirstFailure` | app.py:113-118 | The message is that of the first failing check in the order current password, length, confirmation; a length error implies the current password verified, a mismatch error implies both earlier checks passed. |
| `PasswordChange.Accounts.ChangePassword` | app.py:108-124 | The outcome is the chain's verdict on the user's stored hash; the stored hash is replaced by the new one only on success, and on any error all stored hashes are unchanged. |

## Left out

- Flask routing, sessions, `login_required`, `login`, `logout`, template rendering and logging (app.py:56-100, 150-152, 187-189, 218-219): web plumbing; access to reports and edits is the boolean `acesso` parameter.
- The `/exportar` download and the physical `export_notas.csv` file, with its process-wide overwrite race between concurrent reports: file I/O and concurrency; the export is modelled as the rows handed to the CSV writer.
- Rendering CSV cells to text (quoting, `repr` of the float grade, NULL written as an empty field): text formatting of the csv module.
- psycopg2 connections, transactions and commits: the table is held in memory and each handler is one atomic step.
- Result order of the report: the query has no `ORDER BY`, so the database promises only the set of matching rows; the model returns them in table order, which is one order the database may use.
- TEXT comparison is modelled as code-point lexicographic order (the "C" collation); other database collations may order punctuation differently.
- `float()` parsing: its outcome is the input `ParsedNota` (error, finite number, or nan/infinity).
- `Submit`: the stored `nota` is the parsed value itself, not its rounding to the single-precision `REAL` column.
- The success text of `index` formats the float grade; the model returns the student and the grade instead of the formatted message.
- `datetime.now()`: the timestamp is the parameter `agora`.
- bcrypt: `verificar_senha` is the parameter `verifica`, the new hash `bcrypt.hashpw(nova, gensalt())` is the parameter `novoHash`; the hash migration `atualizar_senhas_para_hash` and `init_db` start-up are not modelled.
- The JSON configuration file (`carregar_config`, `salvar_config`), the title and the known-students list: I/O and display data; the users' hashes are the map `Accounts.senhas`.
- GET requests of `index` and `alterar_senha` only render a page and are not modelled; a missing form key in `alterar_senha` (an HTTP 400 from Flask) is not modelled.
- Database errors other than a query text or parameter count that does not fit (`Execute` returns None for those) are not modelled.
- CsvExport.ExportRoundTrip: the round trip holds over typed fields; the written file does not tell a NULL aluno from an empty one, because the csv writer renders both `None` and `""` as an empty field.
- GradeStore.GradeTable.Submit: `nextId` is unbounded, while `id SERIAL` is a 32-bit sequence; once it is exhausted the insert fails and the handler answers "Nota inválida.", which the model does not capture.
