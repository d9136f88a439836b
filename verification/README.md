# Clínica Vida+ patient registry — a Dafny model

`ClinMedi++82.py` is a Tkinter desktop application, `ClinicaApp`, for registering the
patients of one clinic in a SQLite table `pacientes`. Each patient has a name, a
Brazilian CPF number, an age and a phone. This project models the logic of the
application without its widgets and database driver:

- **CPF handling** (`cpf.dfy`, module `Cpf`): `validar_cpf_formato` (drop the non-digits
  and accept exactly 11 digits) and `formatar_cpf_exibicao` (the mask `XXX.XXX.XXX-XX`).
  The mask is removed again before a delete or an edit. The round trip validate → mask →
  strip is proved.
- **The table** (`patients.dfy`, module `Patients`). The table is a value: its rows in
  rowid order, with a UNIQUE CPF and AUTOINCREMENT ids. It has the keyed lookup, delete and
  update, and the listing query with its `WHERE ... LIKE` filter, its `ORDER BY nome` and
  its display formatting.
- **The repository** (`registry.dfy`, module `Registry`). Class `PatientTable` holds the
  rows and the next id and updates them in place. Its methods are `cadastrar_paciente_bd`,
  `editar_paciente_bd`, `remover_paciente_bd`, `listar_pacientes_bd`, the lookup that opens
  the edit dialog, and the COUNT of the statistics tab. Each method is one atomic statement
  followed by its commit. Each failure is an `Error` tag instead of a message text.
- **The report** (`report.dfy`, module `Report`): the lines that
  `exportar_pacientes_para_txt` writes. The generation time is a parameter.
- **The handlers** (`clinic_ui.dfy`, module `ClinicUi`):
  - the required-field checks of `handle_cadastro` and `salvar_edicao`;
  - `handle_remocao`, and `handle_edicao` with its dialog;
  - the list tab (class `ListTab`: the Treeview rows and the search-status label) that
    `update_lista_tab` clears and refills, with its placeholder row;
  - the total label of `handle_estatisticas`.

  A handler returns the `Notice` (which message box it ends with). An `askstring`
  prompt's answer is a parameter, `None` when the prompt was cancelled.
- **Python and SQLite primitives** (`text.dfy`, module `Text`): `str.strip`, `int()`,
  `str(int)`, `format(s, '<w')`, the case-insensitive `LIKE '%term%'` and the order of the
  BINARY collation.

What the code does, where it is easy to misread:

- **Age.** The code stores any integer `int()` parses, negative ones included; there is
  no range check.
- **Ages too wide for SQLite.** An age outside signed 64 bits makes sqlite3 raise
  `OverflowError`. The generic `except Exception` branch reports it, before the UNIQUE
  check. The model has a separate error for it, `AgeOutOfRange`.
- **Whitespace around an age.** `int()` skips the characters `str.isspace()` accepts,
  except U+001C..U+001F: CPython passes those four unchanged to its ASCII numeral scanner,
  which refuses them. The handlers strip the age first (lines 229 and 297), so stripping
  decides; `Registry` parses unstripped text as `int()` does.
- **Very long age texts.** `int()` refuses a numeral of more than 4300 digits with a
  `ValueError` (the default `sys.int_info.default_max_str_digits` of CPython 3.11 and
  later, and of the 3.10.7, 3.9.14 and 3.8.14 releases). Such an age is reported as
  not an integer, `AgeNotInteger`.
- **Report columns.** Each field is left-justified (`:<35`), padded on the right.

## Model

| member | source | states |
|---|---|---|
| Cpf.Digits | ClinMedi++82.py:68 | `re.sub(r'\D', '', s)` keeps only digits and never lengthens the text |
| Cpf.DigitsMembers | ClinMedi++82.py:68 | the digits kept are every digit character of the text and nothing else |
| Cpf.DigitsIdempotent | ClinMedi++82.py:68 | stripping the non-digits twice is stripping once |
| Cpf.ValidateFormat | ClinMedi++82.py:62-73 | `(True, d)` exactly when 11 digits remain, `d` being those digits in order and canonical; otherwise `(False, "")` |
| Cpf.ValidateIdempotent | ClinMedi++82.py:62-73 | validating the digits a validation returned gives the same answer |
| Cpf.FormatDisplay | ClinMedi++82.py:93-97 | a canonical CPF becomes 14 characters `ddd.ddd.ddd-dd` holding its digit groups; any other text is returned unchanged |
| Cpf.StripDisplayRoundTrip | ClinMedi++82.py:126 | stripping the non-digits of a masked CPF gives back the stored CPF |
| Cpf.ValidateDisplayed | ClinMedi++82.py:267 | a masked CPF typed into a prompt validates to the stored CPF |
| Cpf.FormatDisplayInjective | ClinMedi++82.py:93-97 | two stored CPFs never show the same mask |
| Text.Trim | ClinMedi++82.py:227-230 | `str.strip()` leaves no whitespace at either end, is empty exactly for an all-whitespace input, and never lengthens |
| Text.TrimIdempotent | ClinMedi++82.py:296-298 | stripping twice is stripping once |
| Text.IntToStringShape | ClinMedi++82.py:283 | `str(n)` is a minus sign exactly for negatives, then digits, with no surrounding blanks |
| Text.ParseIntRoundTrip | ClinMedi++82.py:283 | `int(str(n)) == n` for every integer `str` accepts, that is of at most 4300 digits |
| Text.ParseNumeralTooLong | ClinMedi++82.py:79 | `int()` refuses a digit run of more than 4300 digits, with or without a sign |
| Text.Int64WithinStrLimit | ClinMedi++82.py:283 | every 64-bit integer, so every stored age and every count, has at most 19 digits and so a `str` |
| Text.NumeralTrimmed | ClinMedi++82.py:79 | a numeral `int()` accepts is non-empty and has no whitespace at either end |
| Text.IntStripSplit | ClinMedi++82.py:79 | the text `int()` reads is its argument with whitespace removed at both ends |
| Text.PadRight | ClinMedi++82.py:184 | `format(s, '<w')` has length max(w, len s), starts with `s` and pads with spaces only |
| Text.ContainsIgnoringCaseIffOccurs | ClinMedi++82.py:103-107 | `LIKE '%term%'` holds exactly when the term occurs at some offset, up to ASCII case |
| Text.ContainsEmpty | ClinMedi++82.py:101-111 | every text matches the empty term |
| Text.NameLeTotal | ClinMedi++82.py:108 | the name order compares any two names |
| Text.NameLeTransitive | ClinMedi++82.py:108 | the name order is transitive |
| Text.NameLeAntisymmetric | ClinMedi++82.py:108 | names ordered both ways are equal |
| Patients.FindByCpf | ClinMedi++82.py:269-270 | `SELECT ... WHERE cpf=?` finds nothing exactly when no row has the CPF, otherwise a row of the table with that CPF |
| Patients.FindByCpfUnique | ClinMedi++82.py:53 | with unique CPFs the lookup returns the row carrying the CPF |
| Patients.DeleteByCpf | ClinMedi++82.py:128 | after `DELETE ... WHERE cpf=?` no row has that CPF |
| Patients.DeleteMembers | ClinMedi++82.py:128 | the rows left are exactly the rows with another CPF |
| Patients.DeleteAbsent | ClinMedi++82.py:128-134 | deleting a CPF no row has changes nothing (`rowcount` 0) |
| Patients.DeleteExactlyOne | ClinMedi++82.py:128-130 | with unique CPFs, deleting row i's CPF removes row i and only it, the others keeping their order |
| Patients.UpdateByCpf | ClinMedi++82.py:140-144 | `UPDATE ... SET nome, idade, telefone WHERE cpf=?` keeps the length and every id and CPF, leaves rows with another CPF untouched, and gives matching rows the new name, age and phone |
| Patients.UpdateWithOwnValues | ClinMedi++82.py:140-144 | writing a row's own values back leaves the table as it was |
| Patients.FindAfterUpdate | ClinMedi++82.py:140-144 | after an update the key finds the edited row and any other key finds what it found before |
| Patients.UpdateAbsent | ClinMedi++82.py:146-150 | updating a CPF no row has changes nothing |
| Patients.AppendKeepsUnique | ClinMedi++82.py:53 | appending a row with an unregistered CPF keeps the CPFs unique |
| Patients.InsertKeepsInvariant | ClinMedi++82.py:80-83 | an insert with a new CPF keeps CPFs unique and ids increasing, and the new CPF finds the new row |
| Patients.AppendThenDelete | ClinMedi++82.py:128 | deleting the CPF of a row just inserted gives back the table before the insert |
| Patients.RemoveAtKeepsInvariant | ClinMedi++82.py:128 | removing one row keeps CPFs unique and ids increasing |
| Patients.DeleteKeepsInvariant | ClinMedi++82.py:128 | a delete keeps the table invariant and leaves no row with the key |
| Patients.UpdateKeepsInvariant | ClinMedi++82.py:140-144 | an update keeps the table invariant |
| Patients.CountIsDistinctCpfs | ClinMedi++82.py:416-417 | with unique CPFs the number of rows is the number of registered CPFs |
| Patients.Filter | ClinMedi++82.py:104-109 | the filtered rows are exactly the rows whose name or raw CPF contains the term, never more rows than the table |
| Patients.SelectIsFilter | ClinMedi++82.py:101-111 | leaving out the WHERE clause for an empty term lists the same rows as the filter would |
| Patients.InsertByName | ClinMedi++82.py:108 | inserting into a name-sorted sequence keeps it sorted and adds exactly that row |
| Patients.SortByName | ClinMedi++82.py:108 | `ORDER BY nome` returns a permutation of its input, sorted by name |
| Patients.Display | ClinMedi++82.py:115-119 | a listed row keeps name and age, shows the masked CPF, and shows `N/A` exactly for an empty phone |
| Patients.ListingOrderedByName | ClinMedi++82.py:99-121 | any two listed rows are in name order |
| Patients.FilterMultiplicity | ClinMedi++82.py:104-109 | the filter keeps each matching row exactly as often as the table holds it and drops every other row |
| Patients.FilterSubMultiset | ClinMedi++82.py:104-109 | no row is filtered in more often than the table holds it |
| Patients.ListingContents | ClinMedi++82.py:99-121 | the fetched rows are a permutation of the matching rows, each fetched exactly as often as the table holds it; the listing has one entry per matching row, and it shows exactly the matching rows, each formatted for display |
| Patients.ListingOnlyMatches | ClinMedi++82.py:101-119 | everything listed is a matching row, formatted for display |
| Patients.ListingShows | ClinMedi++82.py:101-119 | every matching row is listed, formatted for display |
| Patients.InsertListDelete | ClinMedi++82.py:117-128 | a row just inserted is in the full listing with its masked CPF, and deleting by that masked CPF gives back the previous table |
| Registry.InsertOutcomeDone | ClinMedi++82.py:76-91 | an insert succeeds exactly for an integer age within 64 bits and an unregistered CPF |
| Registry.InsertDuplicateFails | ClinMedi++82.py:88-89 | inserting a registered CPF always fails, whatever the other fields |
| Registry.FormatRows | ClinMedi++82.py:115-121 | the formatting loop produces every fetched row formatted for display, in order |
| Registry.PatientTable.Open | ClinMedi++82.py:49-57 | opening keeps what is stored (`CREATE TABLE IF NOT EXISTS`) |
| Registry.PatientTable.Insert | ClinMedi++82.py:76-91 | the outcome is that of the age check, the 64-bit bound and the UNIQUE check, in that order; a failure changes nothing; success appends exactly the new row with the next id; the invariant is kept |
| Registry.PatientTable.Update | ClinMedi++82.py:136-154 | the outcome is that of the age check, the bound and `rowcount`; a failure changes nothing; success rewrites name, age and phone of the row with the key; the invariant and the next id are kept |
| Registry.PatientTable.Delete | ClinMedi++82.py:123-134 | strips the argument to its digits and deletes that CPF; success exactly when a row had it, and then exactly one row goes; a failure is `NotFound` and changes nothing |
| Registry.PatientTable.Lookup | ClinMedi++82.py:269-270 | finds nothing exactly when the CPF is not registered, otherwise a row with that CPF |
| Registry.PatientTable.Select | ClinMedi++82.py:99-121 | returns the listing for the term, with the properties of `Patients.ListingContents` and `Patients.ListingOrderedByName`; a term over SQLite's LIKE pattern limit is not modelled (see "## Left out") |
| Registry.PatientTable.Count | ClinMedi++82.py:416-417 | `COUNT(id)` is the number of rows and of distinct registered CPFs |
| Report.ReportLines | ClinMedi++82.py:157-188 | no report exactly when the table is empty; otherwise header, one line per row and trailer |
| Report.ReportLayout | ClinMedi++82.py:173-185 | nine lines more than patients: the six header lines with the timestamp on the third, then one data line per patient in listing order |
| Report.ReportTrailer | ClinMedi++82.py:186-188 | the report ends with `Total de Pacientes: n` for the row count n, then the rule |
| Report.ReportInNameOrder | ClinMedi++82.py:181-184 | the data lines are in name order |
| Report.ReportCoversTable | ClinMedi++82.py:160-162 | every patient of the table, whatever the search filter, has a data line |
| Report.DataLineColumns | ClinMedi++82.py:181-184 | padding never truncates: a data line starts with the full name and is at least 73 characters; when the fields fit, it is exactly 73 with CPF, age and phone at columns 36, 52 and 58 |
| Report.ColumnsAt | ClinMedi++82.py:178 | where the four left-justified fields of a line land |
| ClinicUi.TreePlaceholderIffEmpty | ClinMedi++82.py:391-395 | the tree is never empty; it is the single placeholder row exactly when nothing was listed, and otherwise holds no placeholder |
| ClinicUi.TotalTextShowsCount | ClinMedi++82.py:419 | the total label is its prefix followed by a numeral that reads back as the count, a 64-bit `COUNT` |
| ClinicUi.DigitsOfTrim | ClinMedi++82.py:228-236 | stripping whitespace before validating changes no CPF digit |
| ClinicUi.DigitsOfSpaces | ClinMedi++82.py:232 | a blank CPF field holds no digit |
| ClinicUi.RegisterGate | ClinMedi++82.py:227-240 | registration stops exactly when name, CPF or age is blank (missing-fields message first) or the CPF lacks 11 digits; otherwise it passes the stripped fields and the canonical CPF |
| ClinicUi.EditGate | ClinMedi++82.py:296-302 | the edit stops exactly when name or age is blank; otherwise it passes the stripped fields with the dialog's key |
| ClinicUi.RegisterSavedIff | ClinMedi++82.py:225-249 | a registration is saved exactly when name and age are non-blank, the CPF has 11 digits not yet registered, and the stripped age parses within 64 bits |
| ClinicUi.ParseIntOfTrim | ClinMedi++82.py:79 | for a text `int()` accepts, stripping it first gives the same value |
| ClinicUi.ParseIntRefusesSeparator | ClinMedi++82.py:79 | `int('5\x1c')` fails while `int('5\x1c'.strip())` is 5: stripping can turn a refused age into an accepted one |
| ClinicUi.OwnValuesSaved | ClinMedi++82.py:282-306 | saving a stored row's own name, `str(age)` and phone under its CPF succeeds |
| ClinicUi.InsertKeepsWellFormed | ClinMedi++82.py:227-242 | rows stored through the form keep a canonical CPF, a non-blank stripped name, a stripped phone and a 64-bit age |
| ClinicUi.UpdateKeepsWellFormed | ClinMedi++82.py:296-306 | an edit through the dialog keeps every row well formed |
| ClinicUi.DeleteKeepsWellFormed | ClinMedi++82.py:128 | a delete keeps every row well formed |
| ClinicUi.StoredRowPassesEditGate | ClinMedi++82.py:282-302 | the dialog's initial values pass the edit checks unchanged, and the age text reads back as the stored age |
| ClinicUi.EditUnchangedIsNoOp | ClinMedi++82.py:282-306 | saving the edit dialog as it was opened succeeds and writes the table back unchanged |
| ClinicUi.RegisterListRemove | ClinMedi++82.py:242-256 | a patient saved through the form is in the full listing under the masked CPF, and removing by that masked CPF restores the previous table |
| ClinicUi.ListTab.constructor | ClinMedi++82.py:362-366 | a new list tab has an empty tree and status |
| ClinicUi.ListTab.ClearTree | ClinMedi++82.py:386-387 | deleting every child empties the tree and leaves the status label |
| ClinicUi.ListTab.AppendRows | ClinMedi++82.py:391-392 | appends one tree row per listed patient, in order, after what was there |
| ClinicUi.ListTab.Fill | ClinMedi++82.py:391-395 | an empty tree ends with the listed rows, or the placeholder alone when nothing was listed |
| ClinicUi.ListTab.Refresh | ClinMedi++82.py:381-400 | the tree shows the listing for the stripped search text; the status is `Resultados para: '<term>'` or empty for an empty term; the failing query for an over-long term is not modelled (see "## Left out") |
| ClinicUi.Register | ClinMedi++82.py:227-242 | the notice is the one the checks and the insert give; anything but `Saved` leaves the table unchanged; `Saved` appends the row with the stripped fields and canonical CPF |
| ClinicUi.HandleRegister | ClinMedi++82.py:225-249 | the notice is the one the checks and the insert give; on `Saved` the table has the row with the stripped fields and canonical CPF appended under the next id, and the list tab shows the new table; otherwise the table and the tab are unchanged |
| ClinicUi.Remove | ClinMedi++82.py:252-259 | a cancelled or empty prompt does nothing; otherwise deletes the CPF's digits, `Saved` exactly when a row had them, else `NotFound` with no change |
| ClinicUi.HandleRemove | ClinMedi++82.py:251-259 | a cancelled or empty prompt is dismissed with nothing changed; otherwise the answer's digits are deleted, `Saved` exactly when they were registered and `NotFound` with nothing changed when not; on `Saved` the list tab shows the new table, otherwise the tab is unchanged |
| ClinicUi.OpenEdit | ClinMedi++82.py:261-284 | a cancelled or empty prompt opens nothing; the CPF not registered is reported exactly when no row has its digits; the dialog opens exactly when the answer is non-empty and its digits are registered, and then holds that row's name, `str(age)` and phone under the masked-CPF title |
| ClinicUi.SaveEdit | ClinMedi++82.py:296-306 | the notice is the one the edit check and the update give; anything but `Saved` leaves the table unchanged; `Saved` rewrites the row with the stripped fields |
| ClinicUi.HandleSaveEdit | ClinMedi++82.py:295-313 | the notice is the one the edit check and the update give; on `Saved` the row with the key has the stripped name, age and phone, and the list tab shows the new table; otherwise the table and the tab are unchanged |
| ClinicUi.Statistics | ClinMedi++82.py:414-419 | the total label shows the number of rows, which is the number of registered CPFs |

## Left out

- The Tkinter widgets: the notebook, entries and `StringVar`s, message boxes, the modal
  `Toplevel` and its `grab_set`/`wait_window`. Message texts are replaced by `Notice` and
  `Error` tags. The entry fields are the strings a handler is called with.
- Clearing the four entry fields after a successful registration (line 246). The fields
  are not state in this model.
- The "Atualizar Lista (Limpar Filtro)" button (line 375). It is `ListTab.Refresh` with an
  empty search text.
- The details view `exibir_detalhes_selecionado` (lines 322-345). It only reads the
  selected tree row and shows it.
- The SQLite connection, cursor, `commit` and `close`, and startup failures. Each
  operation is one atomic step on the `PatientTable` state.
- Registry.PatientTable.Open: a database file is assumed to satisfy the table invariant (unique
  CPFs, increasing ids). Its contents are a parameter.
- Writing the report file, `os.getcwd` and `time.strftime` (lines 169-170, 190-203). The
  timestamp is a parameter.
- `AVG(idade)` and its `.2f` rendering (lines 421-426), because they are floating point.
- Registry.PatientTable.Select: SQLite refuses a LIKE pattern longer than
  SQLITE_MAX_LIKE_PATTERN_LENGTH (50000 bytes by default) with `OperationalError: LIKE or
  GLOB pattern too complex`. The pattern is `%term%` (line 103) and the query has no `try`
  (lines 104-109). So a stripped search term of more than 49998 UTF-8 bytes fails on a
  non-empty table. The model always lists; it has no UTF-8 byte length and no error for
  the query.
- ClinicUi.ListTab.Refresh: on that failure `update_lista_tab` has already deleted every
  tree row (lines 386-387). The tree stays empty, without the placeholder, and the status
  label keeps its old text. The exception also escapes `handle_cadastro`, `handle_remocao`
  and `salvar_edicao` after their commits and success message boxes (lines 247, 257,
  311), so the `Notice` they return is still the one shown. `Shows`, `Refresh` and
  the `Handle*` contracts hold only for terms within the limit.
- LIKE wildcards: a `%` or `_` typed in the search term is matched literally here, while
  SQLite treats it as a wildcard.
- SortByName: SQLite leaves the order of equal names open. The model keeps equal names in
  rowid order.
- Unicode digits. `\d`, `str.isdigit()` and `int()` also accept non-ASCII digits, but the
  model's digits are ASCII `'0'..'9'` only.
- Text.IntToString: `str(n)` is total here. Python raises `ValueError` for more than 4300
  digits, but the application only converts stored ages and counts, which are 64-bit
  (`Int64WithinStrLimit`).
- The 4300-digit limit is the default. `sys.set_int_max_str_digits` and
  `PYTHONINTMAXSTRDIGITS` can change it, and Pythons released before the limit have
  none. The model fixes it at 4300.
- Python's `int()` beyond an optional sign, ASCII digits, single underscores between
  digits and the surrounding whitespace it skips. Non-ASCII digits and other bases are
  not modelled.
- ClinicUi.ParseIntOfTrim: it holds only for texts `int()` accepts. The converse is false:
  `int()` refuses a U+001C..U+001F that `str.strip()` removes (`ParseIntRefusesSeparator`).
- AUTOINCREMENT exhaustion at the largest rowid is not modelled. The next id is an
  unbounded `nat`.
- Any other exception inside `cadastrar_paciente_bd` or `editar_paciente_bd` besides the
  64-bit bound, for example a disk error.
- A `NULL` phone or age: every row the application writes has both.
