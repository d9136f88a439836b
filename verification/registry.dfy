/**
 * The repository half of `ClinicaApp`: the SQLite table `pacientes` held as a sequence
 * of rows in rowid order plus the next AUTOINCREMENT id. Each method is one atomic
 * statement followed by its commit.
 */
module Registry {
  import opened Wrappers
  import opened Text
  import opened Cpf
  import opened Patients

  /** What `cadastrar_paciente_bd` reports: age parsed first, then bound, then the UNIQUE check. */
  function InsertOutcome(rows: seq<Patient>, cpf: string, ageText: string): Outcome {
    match ParseInt(ageText)
    case None => Failed(AgeNotInteger)
    case Some(age) =>
      if !FitsInt64(age) then Failed(AgeOutOfRange)
      else if cpf in Cpfs(rows) then Failed(DuplicateCpf(cpf))
      else Done
  }

  /** What `editar_paciente_bd` reports: age parsed first, then bound, then `rowcount`. */
  function UpdateOutcome(rows: seq<Patient>, key: string, ageText: string): Outcome {
    match ParseInt(ageText)
    case None => Failed(AgeNotInteger)
    case Some(age) =>
      if !FitsInt64(age) then Failed(AgeOutOfRange)
      else if key !in Cpfs(rows) then Failed(NotFound)
      else Done
  }

  /** An insert succeeds exactly for an integer age that fits 64 bits and a new CPF. */
  lemma InsertOutcomeDone(rows: seq<Patient>, cpf: string, ageText: string)
    ensures InsertOutcome(rows, cpf, ageText) == Done <==>
      ParseInt(ageText).Some? && FitsInt64(ParseInt(ageText).value) && cpf !in Cpfs(rows)
  {
  }

  /** Inserting a CPF that is already registered always fails, whatever the other fields. */
  lemma InsertDuplicateFails(rows: seq<Patient>, i: nat, ageText: string)
    requires i < |rows|
    ensures InsertOutcome(rows, rows[i].cpf, ageText).Failed?
  {
    assert rows[i] in rows;
  }

  /** The loop of `listar_pacientes_bd` that formats each fetched row for display. */
  method FormatRows(fetched: seq<Patient>) returns (result: seq<Listed>)
    ensures result == DisplayAll(fetched)
  {
    result := [];
    var i := 0;
    while i < |fetched|
      invariant 0 <= i <= |fetched|
      invariant result == DisplayAll(fetched[..i])
    {
      assert DisplayAll(fetched[..i + 1]) == DisplayAll(fetched[..i]) + [Display(fetched[i])];
      result := result + [Display(fetched[i])];
      i := i + 1;
    }
    assert fetched[..i] == fetched;
  }

  class PatientTable {
    var rows: seq<Patient>
    var nextId: nat

    ghost predicate Valid()
      reads this
    {
      TableInvariant(rows, nextId)
    }

    /** Opening the database file: `CREATE TABLE IF NOT EXISTS` keeps what is stored. */
    constructor Open(stored: seq<Patient>, storedNextId: nat)
      requires TableInvariant(stored, storedNextId)
      ensures Valid() && rows == stored && nextId == storedNextId
    {
      rows := stored;
      nextId := storedNextId;
    }

    /** `cadastrar_paciente_bd(nome, cpf_numerico, idade, telefone)`. */
    method Insert(name: string, cpf: string, ageText: string, phone: string) returns (r: Outcome)
      requires Valid()
      modifies this
      ensures Valid()
      ensures r == InsertOutcome(old(rows), cpf, ageText)
      ensures r.Failed? ==> rows == old(rows) && nextId == old(nextId)
      ensures r.Done? ==>
        && rows == Inserted(old(rows), old(nextId), name, cpf, ParseInt(ageText).value, phone)
        && nextId == old(nextId) + 1
    {
      var age := ParseInt(ageText);
      if age.None? {
        return Failed(AgeNotInteger);
      }
      if !FitsInt64(age.value) {
        return Failed(AgeOutOfRange);
      }
      if cpf in Cpfs(rows) {
        return Failed(DuplicateCpf(cpf));
      }
      InsertKeepsInvariant(rows, nextId, name, cpf, age.value, phone);
      rows := Inserted(rows, nextId, name, cpf, age.value, phone);
      nextId := nextId + 1;
      r := Done;
    }

    /** `editar_paciente_bd(cpf_antigo_numerico, nome, idade, telefone)`. */
    method Update(key: string, name: string, ageText: string, phone: string) returns (r: Outcome)
      requires Valid()
      modifies this
      ensures Valid() && nextId == old(nextId)
      ensures r == UpdateOutcome(old(rows), key, ageText)
      ensures r.Failed? ==> rows == old(rows)
      ensures r.Done? ==> rows == UpdateByCpf(old(rows), key, name, ParseInt(ageText).value, phone)
    {
      var age := ParseInt(ageText);
      if age.None? {
        return Failed(AgeNotInteger);
      }
      if !FitsInt64(age.value) {
        return Failed(AgeOutOfRange);
      }
      var matched := FindByCpf(rows, key).Some?;
      UpdateKeepsInvariant(rows, nextId, key, name, age.value, phone);
      if !matched {
        UpdateAbsent(rows, key, name, age.value, phone);
      }
      rows := UpdateByCpf(rows, key, name, age.value, phone);
      r := if matched then Done else Failed(NotFound);
    }

    /**
     * `remover_paciente_bd(cpf_formatado)`: drops the non-digits and deletes the row with
     * that CPF; success is `rowcount > 0`.
     */
    method Delete(cpfText: string) returns (r: Outcome)
      requires Valid()
      modifies this
      ensures Valid() && nextId == old(nextId)
      ensures rows == DeleteByCpf(old(rows), Digits(cpfText))
      ensures r == Done <==> Digits(cpfText) in Cpfs(old(rows))
      ensures r.Failed? ==> r.error == NotFound && rows == old(rows)
      ensures r.Done? ==> |rows| == |old(rows)| - 1
    {
      var key := Digits(cpfText);
      var before := |rows|;
      if key in Cpfs(rows) {
        var p :| p in rows && p.cpf == key;
        var i :| 0 <= i < |rows| && rows[i] == p;
        DeleteExactlyOne(rows, i);
      } else {
        DeleteAbsent(rows, key);
      }
      DeleteKeepsInvariant(rows, nextId, key);
      rows := DeleteByCpf(rows, key);
      r := if |rows| < before then Done else Failed(NotFound);
    }

    /** The `SELECT nome, idade, telefone ... WHERE cpf=?` that opens the edit dialog. */
    method Lookup(key: string) returns (r: Option<Patient>)
      ensures r == FindByCpf(rows, key)
    {
      r := FindByCpf(rows, key);
    }

    /**
     * `listar_pacientes_bd(termo_busca)`: the query, then the loop that formats every
     * fetched row.
     */
    method Select(term: string) returns (result: seq<Listed>)
      ensures result == Listing(rows, term)
    {
      var fetched := Fetched(rows, term);
      result := FormatRows(fetched);
    }

    /** `SELECT COUNT(id) FROM pacientes`. */
    method Count() returns (n: nat)
      requires Valid()
      ensures n == |rows| && n == |Cpfs(rows)|
    {
      CountIsDistinctCpfs(rows);
      n := |rows|;
    }
  }
}
