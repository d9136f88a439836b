/**
 * The handlers of `ClinicaApp` with the widgets reduced to their text: the entry fields
 * are the strings a handler is called with, the list tab is its tree rows and its
 * search-status label, the statistics tab is the text of its total label. Message boxes
 * become the `Notice` a handler returns; the prompts of `simpledialog.askstring` become
 * parameters (`None` when cancelled).
 */
module ClinicUi {
  import opened Wrappers
  import opened Text
  import opened Cpf
  import opened Patients
  import opened Registry

  /** One line of the patient tree: four cells of text. */
  datatype Cells = Cells(name: string, cpf: string, age: string, phone: string)

  const PlaceholderText: string := "Nenhum paciente encontrado."

  /** The line shown instead of an empty tree. */
  const Placeholder: Cells := Cells(PlaceholderText, "", "", "")

  function RowCells(l: Listed): Cells {
    Cells(l.name, l.cpf, IntToString(l.age), l.phone)
  }

  function AllCells(s: seq<Listed>): seq<Cells> {
    seq(|s|, i requires 0 <= i < |s| => RowCells(s[i]))
  }

  /** What `update_lista_tab` leaves in the tree for a listing. */
  function TreeLines(listed: seq<Listed>): seq<Cells> {
    if listed == [] then [Placeholder] else AllCells(listed)
  }

  /** The tree is never empty, and it shows the placeholder exactly when nothing was listed. */
  lemma TreePlaceholderIffEmpty(listed: seq<Listed>)
    ensures |TreeLines(listed)| == if listed == [] then 1 else |listed|
    ensures TreeLines(listed) == [Placeholder] <==> listed == []
    ensures listed != [] ==> Placeholder !in TreeLines(listed)
  {
    if listed != [] {
      var t := TreeLines(listed);
      forall i | 0 <= i < |t| ensures t[i] != Placeholder {
        IntToStringShape(listed[i].age);
        assert t[i].age == IntToString(listed[i].age);
      }
      assert t[0] != Placeholder;
    }
  }

  function StatusText(term: string): string {
    if term != "" then "Resultados para: '" + term + "'" else ""
  }

  const TotalPrefix: string := "Total de pacientes cadastrados: "

  /** The text of the statistics tab's total label. */
  function TotalText(total: nat): string {
    TotalPrefix + IntToString(total)
  }

  /**
   * The total label shows the count as a numeral that reads back as that count. `COUNT(id)`
   * is a 64-bit SQLite integer.
   */
  lemma TotalTextShowsCount(total: nat)
    requires total <= MaxInt64
    ensures var t := TotalText(total);
      && t[..|TotalPrefix|] == TotalPrefix
      && ParseInt(t[|TotalPrefix|..]) == Some(total)
  {
    var t := TotalText(total);
    assert t[|TotalPrefix|..] == IntToString(total);
    Int64WithinStrLimit(total);
    ParseIntRoundTrip(total);
  }

  /** Which message box a handler ends with. */
  datatype Notice =
    | Saved                  // showinfo "Sucesso" / "Remoção"
    | Dismissed              // the prompt was cancelled or left empty: nothing shown
    | MissingFields          // "... são obrigatórios."
    | BadCpf                 // "O CPF deve conter exatamente 11 dígitos ..."
    | Refused(error: Error)  // the repository's failure message

  function NoticeOf(o: Outcome): Notice {
    match o
    case Done => Saved
    case Failed(e) => Refused(e)
  }

  /** The field values a handler hands to the repository once its checks pass. */
  datatype Form = Form(name: string, cpf: string, age: string, phone: string)

  datatype Gate = Pass(form: Form) | Stop(notice: Notice)

  lemma {:induction false} DigitsOfTrimLeft(s: string)
    ensures Digits(TrimLeft(s)) == Digits(s)
  {
    if s != [] && IsSpace(s[0]) {
      DigitsOfTrimLeft(s[1..]);
    }
  }

  lemma {:induction false} DigitsOfTrimRight(s: string)
    ensures Digits(TrimRight(s)) == Digits(s)
  {
    if s != [] && IsSpace(s[|s| - 1]) {
      var init := s[..|s| - 1];
      DigitsOfTrimRight(init);
      assert s == init + [s[|s| - 1]];
      DigitsAppend(init, [s[|s| - 1]]);
    }
  }

  /** Surrounding whitespace holds no digits. */
  lemma DigitsOfTrim(s: string)
    ensures Digits(Trim(s)) == Digits(s)
  {
    DigitsOfTrimLeft(s);
    DigitsOfTrimRight(TrimLeft(s));
  }

  lemma {:induction false} DigitsOfSpaces(s: string)
    requires AllSpace(s)
    ensures Digits(s) == ""
  {
    if s != [] {
      DigitsOfSpaces(s[1..]);
    }
  }

  /**
   * The checks of `handle_cadastro`: name, CPF and age must be non-blank once stripped,
   * and the CPF must hold exactly 11 digits.
   */
  function RegisterGate(nameIn: string, cpfIn: string, ageIn: string, phoneIn: string): (g: Gate)
    ensures g.Stop? <==> AllSpace(nameIn) || AllSpace(cpfIn) || AllSpace(ageIn) || |Digits(cpfIn)| != 11
    ensures g.Stop? ==> g.notice == if AllSpace(nameIn) || AllSpace(cpfIn) || AllSpace(ageIn) then MissingFields else BadCpf
    ensures g.Pass? ==> g.form == Form(Trim(nameIn), Digits(cpfIn), Trim(ageIn), Trim(phoneIn))
    ensures g.Pass? ==> g.form.name != "" && Trimmed(g.form.name) && Trimmed(g.form.phone) && IsCanonical(g.form.cpf)
  {
    var name, cpf, age, phone := Trim(nameIn), Trim(cpfIn), Trim(ageIn), Trim(phoneIn);
    DigitsOfTrim(cpfIn);
    if name == "" || cpf == "" || age == "" then Stop(MissingFields)
    else
      var (valid, digits) := ValidateFormat(cpf);
      if !valid then Stop(BadCpf)
      else Pass(Form(name, digits, age, phone))
  }

  /** The check of `salvar_edicao`: name and age must be non-blank once stripped. */
  function EditGate(key: string, nameIn: string, ageIn: string, phoneIn: string): (g: Gate)
    ensures g.Stop? <==> AllSpace(nameIn) || AllSpace(ageIn)
    ensures g.Stop? ==> g.notice == MissingFields
    ensures g.Pass? ==> g.form == Form(Trim(nameIn), key, Trim(ageIn), Trim(phoneIn))
    ensures g.Pass? ==> g.form.name != "" && Trimmed(g.form.name) && Trimmed(g.form.phone)
  {
    var name, age, phone := Trim(nameIn), Trim(ageIn), Trim(phoneIn);
    if name == "" || age == "" then Stop(MissingFields)
    else Pass(Form(name, key, age, phone))
  }

  /** What `handle_cadastro` ends with, for a table holding `rows`. */
  function RegisterNotice(rows: seq<Patient>, nameIn: string, cpfIn: string, ageIn: string, phoneIn: string): Notice {
    match RegisterGate(nameIn, cpfIn, ageIn, phoneIn)
    case Stop(n) => n
    case Pass(f) => NoticeOf(InsertOutcome(rows, f.cpf, f.age))
  }

  /** What `salvar_edicao` ends with. */
  function EditNotice(rows: seq<Patient>, key: string, nameIn: string, ageIn: string, phoneIn: string): Notice {
    match EditGate(key, nameIn, ageIn, phoneIn)
    case Stop(n) => n
    case Pass(f) => NoticeOf(UpdateOutcome(rows, key, f.age))
  }

  /** The rows after a saved registration: the stripped fields appended under the next id. */
  function RegisteredRows(rows: seq<Patient>, nextId: nat, nameIn: string, cpfIn: string, ageIn: string, phoneIn: string): seq<Patient>
    requires RegisterNotice(rows, nameIn, cpfIn, ageIn, phoneIn) == Saved
  {
    var f := RegisterGate(nameIn, cpfIn, ageIn, phoneIn).form;
    Inserted(rows, nextId, f.name, f.cpf, ParseInt(f.age).value, f.phone)
  }

  /** The rows after a saved edit: the stripped fields written over the key's row. */
  function EditedRows(rows: seq<Patient>, key: string, nameIn: string, ageIn: string, phoneIn: string): seq<Patient>
    requires EditNotice(rows, key, nameIn, ageIn, phoneIn) == Saved
  {
    var f := EditGate(key, nameIn, ageIn, phoneIn).form;
    UpdateByCpf(rows, key, f.name, ParseInt(f.age).value, f.phone)
  }

  /** A registration is saved exactly when every check and the insert succeed. */
  lemma RegisterSavedIff(rows: seq<Patient>, nameIn: string, cpfIn: string, ageIn: string, phoneIn: string)
    ensures RegisterNotice(rows, nameIn, cpfIn, ageIn, phoneIn) == Saved <==>
      && !AllSpace(nameIn) && !AllSpace(ageIn) && |Digits(cpfIn)| == 11
      && Digits(cpfIn) !in Cpfs(rows)
      && ParseInt(Trim(ageIn)).Some? && FitsInt64(ParseInt(Trim(ageIn)).value)
  {
    var g := RegisterGate(nameIn, cpfIn, ageIn, phoneIn);
    if !AllSpace(nameIn) && !AllSpace(ageIn) && |Digits(cpfIn)| == 11 {
      assert !AllSpace(cpfIn) by {
        if AllSpace(cpfIn) { DigitsOfSpaces(cpfIn); }
      }
      assert g.Pass? && g.form.cpf == Digits(cpfIn) && g.form.age == Trim(ageIn);
      InsertOutcomeDone(rows, g.form.cpf, g.form.age);
    } else {
      assert g.Stop?;
    }
  }

  /**
   * Stripping a text `int()` accepts does not change its value: the whitespace `int()`
   * skips is whitespace to `str.strip()` too.
   */
  lemma ParseIntOfTrim(s: string)
    ensures ParseInt(s).Some? ==> ParseInt(Trim(s)) == ParseInt(s)
  {
    var t := IntStrip(s);
    if ParseNumeral(t).Some? {
      NumeralTrimmed(t);
      var a, b := IntStripSplit(s);
      TrimAround(a, t, b);
      IntStripOfTrimmed(t);
    }
  }

  /** The converse fails: `str.strip()` removes a trailing U+001C that `int()` refuses. */
  lemma ParseIntRefusesSeparator()
    ensures var s := ['5', 0x1C as char];
      ParseInt(s) == None && ParseInt(Trim(s)) == Some(5)
  {
    var s := ['5', 0x1C as char];
    assert IntStripLeft(s) == s;
    assert IntStripRight(s) == s;
    assert !IsDigitRun(s);
    assert TrimLeft(s) == s;
    assert TrimRight(s) == TrimRight(s[..1]) && s[..1] == "5";
    assert IsDigitRun("5") && DigitCount("5") == 1 && ValueOf("5") == 5;
    IntStripOfTrimmed("5");
  }

  /** What the app keeps true of every row it writes. */
  predicate WellFormedRow(p: Patient) {
    && IsCanonical(p.cpf)
    && p.name != "" && Trimmed(p.name)
    && Trimmed(p.phone)
    && FitsInt64(p.age)
  }

  predicate RowsWellFormed(rows: seq<Patient>) {
    forall i :: 0 <= i < |rows| ==> WellFormedRow(rows[i])
  }

  lemma AppendWellFormed(rows: seq<Patient>, p: Patient)
    requires RowsWellFormed(rows) && WellFormedRow(p)
    ensures RowsWellFormed(rows + [p])
  {
    var r := rows + [p];
    forall i | 0 <= i < |r| ensures WellFormedRow(r[i]) {
      if i < |rows| {
        assert r[i] == rows[i];
      }
    }
  }

  lemma UpdateWellFormed(rows: seq<Patient>, key: string, name: string, age: int, phone: string)
    requires RowsWellFormed(rows) && FitsInt64(age)
    requires name != "" && Trimmed(name) && Trimmed(phone)
    ensures RowsWellFormed(UpdateByCpf(rows, key, name, age, phone))
  {
    var r := UpdateByCpf(rows, key, name, age, phone);
    forall i | 0 <= i < |r| ensures WellFormedRow(r[i]) {
      assert WellFormedRow(rows[i]);
    }
  }

  /** A row stored by a successful registration keeps the table well formed. */
  lemma InsertKeepsWellFormed(rows: seq<Patient>, nextId: nat, name: string, cpf: string, ageText: string, phone: string)
    requires RowsWellFormed(rows) && InsertOutcome(rows, cpf, ageText) == Done
    requires name != "" && Trimmed(name) && Trimmed(phone) && IsCanonical(cpf)
    ensures RowsWellFormed(Inserted(rows, nextId, name, cpf, ParseInt(ageText).value, phone))
  {
    InsertOutcomeDone(rows, cpf, ageText);
    var age := ParseInt(ageText).value;
    AppendWellFormed(rows, Patient(nextId, name, cpf, age, phone));
  }

  /** A successful edit with checked fields keeps the table well formed. */
  lemma UpdateKeepsWellFormed(rows: seq<Patient>, key: string, name: string, ageText: string, phone: string)
    requires RowsWellFormed(rows) && UpdateOutcome(rows, key, ageText) == Done
    requires name != "" && Trimmed(name) && Trimmed(phone)
    ensures RowsWellFormed(UpdateByCpf(rows, key, name, ParseInt(ageText).value, phone))
  {
    var age := ParseInt(ageText).value;
    assert FitsInt64(age);
    UpdateWellFormed(rows, key, name, age, phone);
  }

  lemma DeleteKeepsWellFormed(rows: seq<Patient>, key: string)
    requires RowsWellFormed(rows)
    ensures RowsWellFormed(DeleteByCpf(rows, key))
  {
    DeleteMembers(rows, key);
    var r := DeleteByCpf(rows, key);
    forall i | 0 <= i < |r| ensures WellFormedRow(r[i]) {
      assert r[i] in rows;
    }
  }

  /**
   * Saving the edit dialog with the values it was opened with writes the row back as
   * it was: `str(idade)` parses back to the age and stored text is already stripped.
   */
  lemma EditUnchangedIsNoOp(rows: seq<Patient>, nextId: nat, i: nat)
    requires TableInvariant(rows, nextId) && RowsWellFormed(rows) && i < |rows|
    ensures var p := rows[i];
      && EditGate(p.cpf, p.name, IntToString(p.age), p.phone) == Pass(Form(p.name, p.cpf, IntToString(p.age), p.phone))
      && ParseInt(IntToString(p.age)) == Some(p.age)
      && EditNotice(rows, p.cpf, p.name, IntToString(p.age), p.phone) == Saved
      && UpdateByCpf(rows, p.cpf, p.name, p.age, p.phone) == rows
  {
    var p := rows[i];
    assert WellFormedRow(p);
    StoredRowPassesEditGate(p);
    OwnValuesSaved(rows, p);
    UpdateWithOwnValues(rows, i);
  }

  lemma OwnValuesSaved(rows: seq<Patient>, p: Patient)
    requires p in rows && WellFormedRow(p)
    ensures EditNotice(rows, p.cpf, p.name, IntToString(p.age), p.phone) == Saved
  {
    StoredRowPassesEditGate(p);
    assert p.cpf in Cpfs(rows);
    assert UpdateOutcome(rows, p.cpf, IntToString(p.age)) == Done;
  }

  /** The dialog's initial values pass the edit checks unchanged and give back the stored age. */
  lemma StoredRowPassesEditGate(p: Patient)
    requires WellFormedRow(p)
    ensures EditGate(p.cpf, p.name, IntToString(p.age), p.phone) == Pass(Form(p.name, p.cpf, IntToString(p.age), p.phone))
    ensures ParseInt(IntToString(p.age)) == Some(p.age)
  {
    var age := IntToString(p.age);
    TrimOfTrimmed(p.name);
    TrimOfTrimmed(p.phone);
    IntToStringShape(p.age);
    TrimOfTrimmed(age);
    assert !AllSpace(age) by { assert !IsSpace(age[0]); }
    assert !AllSpace(p.name) by { assert !IsSpace(p.name[0]); }
    Int64WithinStrLimit(p.age);
    ParseIntRoundTrip(p.age);
  }

  /**
   * A patient registered through the form shows up in the full listing with the masked
   * CPF, and removing it by that masked CPF gives back the table it was added to.
   */
  lemma RegisterListRemove(rows: seq<Patient>, nextId: nat, nameIn: string, cpfIn: string, ageIn: string, phoneIn: string)
    requires TableInvariant(rows, nextId)
    requires RegisterNotice(rows, nameIn, cpfIn, ageIn, phoneIn) == Saved
    ensures var f := RegisterGate(nameIn, cpfIn, ageIn, phoneIn).form;
      var p := Patient(nextId, f.name, f.cpf, ParseInt(f.age).value, f.phone);
      var after := Inserted(rows, nextId, f.name, f.cpf, p.age, f.phone);
      && Display(p) in Listing(after, "")
      && Display(p).cpf == FormatDisplay(Digits(cpfIn))
      && DeleteByCpf(after, Digits(Display(p).cpf)) == rows
  {
    var f := RegisterGate(nameIn, cpfIn, ageIn, phoneIn).form;
    InsertOutcomeDone(rows, f.cpf, f.age);
    InsertListDelete(rows, nextId, f.name, f.cpf, ParseInt(f.age).value, f.phone);
  }

  /** The data the edit dialog opens with, or why it does not open. */
  datatype EditStart =
    | NoAnswer
    | NotRegistered
    | Editing(key: string, title: string, name: string, age: string, phone: string)

  function EditTitle(name: string, key: string): string {
    "Editar: " + name + " (CPF: " + FormatDisplay(key) + ")"
  }

  /**
   * The list tab: the rows of its `ttk.Treeview` and the text of its search-status label,
   * which `update_lista_tab` rewrites.
   */
  class ListTab {
    var tree: seq<Cells>
    var status: string

    constructor ()
      ensures tree == [] && status == ""
    {
      tree := [];
      status := "";
    }

    /** Deletes every row of the tree, one child at a time; the status label is untouched. */
    method ClearTree()
      modifies this
      ensures tree == [] && status == old(status)
    {
      var children := tree;
      var k := 0;
      while k < |children|
        invariant 0 <= k <= |children| && tree == children[k..] && status == old(status)
      {
        tree := tree[1..];
        k := k + 1;
      }
    }

    /** Inserts one tree row per listed patient at the end of the tree, in listing order. */
    method AppendRows(listed: seq<Listed>)
      modifies this
      ensures tree == old(tree) + AllCells(listed) && status == old(status)
    {
      var i := 0;
      while i < |listed|
        invariant 0 <= i <= |listed| && status == old(status)
        invariant tree == old(tree) + AllCells(listed[..i])
      {
        assert AllCells(listed[..i + 1]) == AllCells(listed[..i]) + [RowCells(listed[i])];
        tree := tree + [RowCells(listed[i])];
        i := i + 1;
      }
      assert listed[..i] == listed;
    }

    /** After the query: one tree row per listed patient, or the placeholder when there is none. */
    method Fill(listed: seq<Listed>)
      requires tree == []
      modifies this
      ensures tree == TreeLines(listed) && status == old(status)
    {
      AppendRows(listed);
      assert tree == AllCells(listed);
      if listed == [] {
        tree := tree + [Placeholder];
      }
    }

    /**
     * `update_lista_tab` with `searchText` the content of the search field: empty the
     * tree, list with the stripped text, fill the tree, then set the status label.
     */
    method Refresh(table: PatientTable, searchText: string)
      modifies this
      ensures Shows(this, table, searchText)
    {
      var term := Trim(searchText);
      ClearTree();
      var listed := table.Select(term);
      Fill(listed);
      status := StatusText(term);
    }
  }

  /** The list tab shows the table as listed for the stripped search text. */
  ghost predicate Shows(tab: ListTab, table: PatientTable, searchText: string)
    reads tab, table
  {
    && tab.tree == TreeLines(Listing(table.rows, Trim(searchText)))
    && tab.status == StatusText(Trim(searchText))
  }

  /**
   * `handle_cadastro` on the four form fields as typed: `Register`, then on success the
   * list tab is refreshed with the search field `searchText`.
   */
  method HandleRegister(table: PatientTable, tab: ListTab, searchText: string,
                  nameIn: string, cpfIn: string, ageIn: string, phoneIn: string)
    returns (r: Notice)
    requires table.Valid()
    modifies table, tab
    ensures table.Valid()
    ensures r == RegisterNotice(old(table.rows), nameIn, cpfIn, ageIn, phoneIn)
    ensures r == Saved ==> Shows(tab, table, searchText)
    ensures r != Saved ==> tab.tree == old(tab.tree) && tab.status == old(tab.status)
    ensures r != Saved ==> table.rows == old(table.rows) && table.nextId == old(table.nextId)
    ensures r == Saved ==>
      && table.rows == RegisteredRows(old(table.rows), old(table.nextId), nameIn, cpfIn, ageIn, phoneIn)
      && table.nextId == old(table.nextId) + 1
  {
    r := Register(table, nameIn, cpfIn, ageIn, phoneIn);
    ghost var stored := table.rows;
    if r == Saved {
      tab.Refresh(table, searchText);
      assert table.rows == stored;
    }
  }

  /** The checks of `handle_cadastro`, then `cadastrar_paciente_bd`. */
  method Register(table: PatientTable, nameIn: string, cpfIn: string, ageIn: string, phoneIn: string)
    returns (r: Notice)
    requires table.Valid()
    modifies table
    ensures table.Valid()
    ensures r == RegisterNotice(old(table.rows), nameIn, cpfIn, ageIn, phoneIn)
    ensures r != Saved ==> table.rows == old(table.rows) && table.nextId == old(table.nextId)
    ensures r == Saved ==>
      && table.rows == RegisteredRows(old(table.rows), old(table.nextId), nameIn, cpfIn, ageIn, phoneIn)
      && table.nextId == old(table.nextId) + 1
  {
    var g := RegisterGate(nameIn, cpfIn, ageIn, phoneIn);
    if g.Stop? {
      r := g.notice;
      assert r != Saved;
    } else {
      var f := g.form;
      var o := table.Insert(f.name, f.cpf, f.age, f.phone);
      r := NoticeOf(o);
    }
  }

  /**
   * `handle_remocao`, given what the CPF prompt returned (`None` when cancelled): `Remove`,
   * then on success the list tab is refreshed with the search field `searchText`.
   */
  method HandleRemove(table: PatientTable, tab: ListTab, searchText: string, answer: Option<string>)
    returns (r: Notice)
    requires table.Valid()
    modifies table, tab
    ensures table.Valid() && table.nextId == old(table.nextId)
    ensures answer == None || answer == Some("") ==> r == Dismissed && table.rows == old(table.rows)
    ensures answer.Some? && answer.value != "" ==>
      && table.rows == DeleteByCpf(old(table.rows), Digits(answer.value))
      && (r == Saved <==> Digits(answer.value) in Cpfs(old(table.rows)))
      && (r != Saved ==> r == Refused(NotFound) && table.rows == old(table.rows))
    ensures r == Saved ==> Shows(tab, table, searchText)
    ensures r != Saved ==> tab.tree == old(tab.tree) && tab.status == old(tab.status)
  {
    r := Remove(table, answer);
    ghost var stored := table.rows;
    if r == Saved {
      tab.Refresh(table, searchText);
      assert table.rows == stored;
    }
  }

  /** The prompt check of `handle_remocao`, then `remover_paciente_bd`. */
  method Remove(table: PatientTable, answer: Option<string>) returns (r: Notice)
    requires table.Valid()
    modifies table
    ensures table.Valid() && table.nextId == old(table.nextId)
    ensures answer == None || answer == Some("") ==> r == Dismissed && table.rows == old(table.rows)
    ensures answer.Some? && answer.value != "" ==>
      && table.rows == DeleteByCpf(old(table.rows), Digits(answer.value))
      && (r == Saved <==> Digits(answer.value) in Cpfs(old(table.rows)))
      && (r != Saved ==> r == Refused(NotFound) && table.rows == old(table.rows))
  {
    if answer == None || answer == Some("") {
      return Dismissed;
    }
    var o := table.Delete(answer.value);
    r := NoticeOf(o);
  }

  /** The first half of `handle_edicao`: find the row and fill the dialog. */
  method OpenEdit(table: PatientTable, answer: Option<string>) returns (e: EditStart)
    requires table.Valid()
    ensures answer == None || answer == Some("") ==> e == NoAnswer
    ensures answer.Some? && answer.value != "" ==>
      (e == NotRegistered <==> Digits(answer.value) !in Cpfs(table.rows))
    ensures e.Editing? <==> answer.Some? && answer.value != "" && Digits(answer.value) in Cpfs(table.rows)
    ensures e.Editing? ==>
      && answer.Some? && e.key == Digits(answer.value)
      && FindByCpf(table.rows, e.key).Some?
      && var p := FindByCpf(table.rows, e.key).value;
         e.name == p.name && e.age == IntToString(p.age) && e.phone == p.phone
         && e.title == EditTitle(p.name, e.key)
  {
    if answer == None || answer == Some("") {
      return NoAnswer;
    }
    var key := Digits(answer.value);
    var found := table.Lookup(key);
    if found.None? {
      return NotRegistered;
    }
    var p := found.value;
    e := Editing(key, EditTitle(p.name, key), p.name, IntToString(p.age), p.phone);
  }

  /**
   * `salvar_edicao` for the dialog opened on `key`, given the three fields as typed:
   * `SaveEdit`, then on success the list tab is refreshed with the search field `searchText`.
   */
  method HandleSaveEdit(table: PatientTable, tab: ListTab, searchText: string,
                        key: string, nameIn: string, ageIn: string, phoneIn: string)
    returns (r: Notice)
    requires table.Valid()
    modifies table, tab
    ensures table.Valid() && table.nextId == old(table.nextId)
    ensures r == EditNotice(old(table.rows), key, nameIn, ageIn, phoneIn)
    ensures r == Saved ==> Shows(tab, table, searchText)
    ensures r != Saved ==> tab.tree == old(tab.tree) && tab.status == old(tab.status)
    ensures r != Saved ==> table.rows == old(table.rows)
    ensures r == Saved ==> table.rows == EditedRows(old(table.rows), key, nameIn, ageIn, phoneIn)
  {
    r := SaveEdit(table, key, nameIn, ageIn, phoneIn);
    ghost var stored := table.rows;
    if r == Saved {
      tab.Refresh(table, searchText);
      assert table.rows == stored;
    }
  }

  /** The check of `salvar_edicao`, then `editar_paciente_bd` on the key the dialog was opened with. */
  method SaveEdit(table: PatientTable, key: string, nameIn: string, ageIn: string, phoneIn: string)
    returns (r: Notice)
    requires table.Valid()
    modifies table
    ensures table.Valid() && table.nextId == old(table.nextId)
    ensures r == EditNotice(old(table.rows), key, nameIn, ageIn, phoneIn)
    ensures r != Saved ==> table.rows == old(table.rows) && table.nextId == old(table.nextId)
    ensures r == Saved ==> table.rows == EditedRows(old(table.rows), key, nameIn, ageIn, phoneIn)
  {
    var g := EditGate(key, nameIn, ageIn, phoneIn);
    if g.Stop? {
      r := g.notice;
      assert r == MissingFields;
      return;
    }
    var f := g.form;
    var o := table.Update(key, f.name, f.age, f.phone);
    r := NoticeOf(o);
  }

  /** `handle_estatisticas` up to the average: the total label for the current table. */
  method Statistics(table: PatientTable) returns (shown: string)
    requires table.Valid()
    ensures shown == TotalText(|table.rows|) && shown == TotalText(|Cpfs(table.rows)|)
  {
    var total := table.Count();
    shown := TotalText(total);
  }
}
