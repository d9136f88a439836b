/**
 * The `pacientes` table as a value: its rows in rowid order, the keyed operations the
 * registry runs on it (lookup, delete and update by CPF) and the listing query
 * `SELECT nome, cpf, idade, telefone ... ORDER BY nome` with its display formatting.
 */
module Patients {
  import opened Wrappers
  import opened Text
  import opened Cpf

  /** A row: `id INTEGER PRIMARY KEY AUTOINCREMENT, nome, cpf UNIQUE, idade, telefone`. */
  datatype Patient = Patient(id: nat, name: string, cpf: string, age: int, phone: string)

  /** A row as the listing returns it: masked CPF, 'N/A' for an empty phone. */
  datatype Listed = Listed(name: string, cpf: string, age: int, phone: string)

  /** Why a repository operation failed. */
  datatype Error =
    | AgeNotInteger            // int(idade) raised ValueError
    | AgeOutOfRange            // sqlite3 cannot bind an integer wider than 64 bits
    | DuplicateCpf(cpf: string) // the UNIQUE constraint on cpf
    | NotFound                 // the statement matched no row

  datatype Outcome = Done | Failed(error: Error)

  const MinInt64: int := -0x8000_0000_0000_0000
  const MaxInt64: int := 0x7FFF_FFFF_FFFF_FFFF

  /** The integers sqlite3 can bind to an INTEGER parameter. */
  predicate FitsInt64(n: int) { MinInt64 <= n <= MaxInt64 }

  predicate CpfsUnique(rows: seq<Patient>) {
    forall i, j :: 0 <= i < j < |rows| ==> rows[i].cpf != rows[j].cpf
  }

  /** AUTOINCREMENT: ids grow along the rowid order and stay below the next id. */
  predicate IdsIncreasing(rows: seq<Patient>, nextId: nat) {
    && (forall i, j :: 0 <= i < j < |rows| ==> rows[i].id < rows[j].id)
    && (forall i :: 0 <= i < |rows| ==> rows[i].id < nextId)
  }

  predicate TableInvariant(rows: seq<Patient>, nextId: nat) {
    CpfsUnique(rows) && IdsIncreasing(rows, nextId)
  }

  function Cpfs(rows: seq<Patient>): set<string> {
    set p | p in rows :: p.cpf
  }

  // ---------------------------------------------------------------------------
  // Keyed operations
  // ---------------------------------------------------------------------------

  /** `SELECT ... WHERE cpf = ?`: the first row with that CPF. */
  function FindByCpf(rows: seq<Patient>, key: string): (r: Option<Patient>)
    ensures r.None? <==> key !in Cpfs(rows)
    ensures r.Some? ==> r.value in rows && r.value.cpf == key
  {
    if rows == [] then None
    else if rows[0].cpf == key then Some(rows[0])
    else
      assert Cpfs(rows) == {rows[0].cpf} + Cpfs(rows[1..]) by {
        assert forall p :: p in rows <==> p == rows[0] || p in rows[1..];
      }
      FindByCpf(rows[1..], key)
  }

  /** With unique CPFs the row found by a CPF is the one that carries it. */
  lemma {:induction false} FindByCpfUnique(rows: seq<Patient>, i: nat)
    requires CpfsUnique(rows) && i < |rows|
    ensures FindByCpf(rows, rows[i].cpf) == Some(rows[i])
  {
    if i > 0 {
      assert CpfsUnique(rows[1..]) by {
        forall a, b | 0 <= a < b < |rows| - 1 ensures rows[1..][a].cpf != rows[1..][b].cpf {
          assert rows[1..][a] == rows[a + 1] && rows[1..][b] == rows[b + 1];
        }
      }
      assert rows[i] == rows[1..][i - 1];
      FindByCpfUnique(rows[1..], i - 1);
    }
  }

  /** `DELETE FROM pacientes WHERE cpf = ?`. */
  function DeleteByCpf(rows: seq<Patient>, key: string): (r: seq<Patient>)
    ensures |r| <= |rows|
    ensures forall i :: 0 <= i < |r| ==> r[i].cpf != key
  {
    if rows == [] then []
    else (if rows[0].cpf == key then [] else [rows[0]]) + DeleteByCpf(rows[1..], key)
  }

  /** The rows left after a delete are exactly the rows with another CPF. */
  lemma {:induction false} DeleteMembers(rows: seq<Patient>, key: string)
    ensures forall p :: p in DeleteByCpf(rows, key) <==> p in rows && p.cpf != key
  {
    if rows != [] {
      DeleteMembers(rows[1..], key);
      assert forall p :: p in rows <==> p == rows[0] || p in rows[1..];
    }
  }

  /** Deleting a CPF no row has leaves the table as it is. */
  lemma {:induction false} DeleteAbsent(rows: seq<Patient>, key: string)
    requires key !in Cpfs(rows)
    ensures DeleteByCpf(rows, key) == rows
  {
    if rows != [] {
      assert rows[0] in rows;
      assert key !in Cpfs(rows[1..]) by {
        forall p | p in rows[1..] ensures p.cpf != key { assert p in rows; }
      }
      DeleteAbsent(rows[1..], key);
      assert [rows[0]] + rows[1..] == rows;
    }
  }

  /** The rows after the first still have unique CPFs, none of them the first row's. */
  lemma TailUnique(rows: seq<Patient>)
    requires CpfsUnique(rows) && rows != []
    ensures CpfsUnique(rows[1..]) && rows[0].cpf !in Cpfs(rows[1..])
  {
    var rest := rows[1..];
    forall j, k | 0 <= j < k < |rest| ensures rest[j].cpf != rest[k].cpf {
      assert rest[j] == rows[j + 1] && rest[k] == rows[k + 1];
    }
    forall p | p in rest ensures p.cpf != rows[0].cpf {
      var k :| 0 <= k < |rest| && rest[k] == p;
      assert p == rows[k + 1];
    }
  }

  /** Deleting the CPF of row i removes that row and only it: the key is unique. */
  lemma {:induction false} DeleteExactlyOne(rows: seq<Patient>, i: nat)
    requires CpfsUnique(rows) && i < |rows|
    ensures DeleteByCpf(rows, rows[i].cpf) == rows[..i] + rows[i + 1..]
  {
    var key := rows[i].cpf;
    var rest := rows[1..];
    TailUnique(rows);
    if i == 0 {
      DeleteAbsent(rest, key);
      assert DeleteByCpf(rows, key) == DeleteByCpf(rest, key);
    } else {
      assert rest[i - 1] == rows[i];
      DeleteExactlyOne(rest, i - 1);
      assert DeleteByCpf(rows, key) == [rows[0]] + DeleteByCpf(rest, key);
      SpliceTail(rows, i);
    }
  }

  /** Cutting position i - 1 out of the tail, then putting the head back, cuts position i. */
  lemma SpliceTail(rows: seq<Patient>, i: nat)
    requires 0 < i < |rows|
    ensures [rows[0]] + (rows[1..][..i - 1] + rows[1..][i..]) == rows[..i] + rows[i + 1..]
  {
    assert rows[1..][..i - 1] == rows[1..i];
    assert rows[1..][i..] == rows[i + 1..];
    assert rows[..i] == [rows[0]] + rows[1..i];
  }

  /** The row with the new values that `UPDATE ... SET nome, idade, telefone` writes. */
  function Edited(p: Patient, name: string, age: int, phone: string): Patient {
    p.(name := name, age := age, phone := phone)
  }

  /** `UPDATE pacientes SET nome=?, idade=?, telefone=? WHERE cpf=?`. */
  function UpdateByCpf(rows: seq<Patient>, key: string, name: string, age: int, phone: string): (r: seq<Patient>)
    ensures |r| == |rows|
    ensures forall i :: 0 <= i < |rows| ==> r[i].id == rows[i].id && r[i].cpf == rows[i].cpf
    ensures forall i :: 0 <= i < |rows| && rows[i].cpf != key ==> r[i] == rows[i]
    ensures forall i :: 0 <= i < |rows| && rows[i].cpf == key ==>
      r[i].name == name && r[i].age == age && r[i].phone == phone
  {
    if rows == [] then []
    else
      var head := if rows[0].cpf == key then Edited(rows[0], name, age, phone) else rows[0];
      var tail := UpdateByCpf(rows[1..], key, name, age, phone);
      assert forall i :: 1 <= i < |rows| ==> ([head] + tail)[i] == tail[i - 1] && rows[i] == rows[1..][i - 1];
      [head] + tail
  }

  /** Writing a row's own name, age and phone back over it leaves the table as it was. */
  lemma UpdateWithOwnValues(rows: seq<Patient>, i: nat)
    requires CpfsUnique(rows) && i < |rows|
    ensures UpdateByCpf(rows, rows[i].cpf, rows[i].name, rows[i].age, rows[i].phone) == rows
  {
    var p := rows[i];
    var r := UpdateByCpf(rows, p.cpf, p.name, p.age, p.phone);
    forall k | 0 <= k < |rows| ensures r[k] == rows[k] {
      if rows[k].cpf == p.cpf {
        assert k == i;
      }
    }
  }

  /** After an update the key finds the edited row; every other key finds what it found before. */
  lemma {:induction false} FindAfterUpdate(rows: seq<Patient>, key: string, name: string, age: int, phone: string, other: string)
    requires other != key
    ensures FindByCpf(UpdateByCpf(rows, key, name, age, phone), other) == FindByCpf(rows, other)
    ensures FindByCpf(UpdateByCpf(rows, key, name, age, phone), key) ==
      match FindByCpf(rows, key)
      case None => None
      case Some(p) => Some(Edited(p, name, age, phone))
  {
    if rows != [] {
      var r := UpdateByCpf(rows, key, name, age, phone);
      assert r[1..] == UpdateByCpf(rows[1..], key, name, age, phone);
      FindAfterUpdate(rows[1..], key, name, age, phone, other);
    }
  }

  /** Updating a CPF no row has changes nothing. */
  lemma UpdateAbsent(rows: seq<Patient>, key: string, name: string, age: int, phone: string)
    requires key !in Cpfs(rows)
    ensures UpdateByCpf(rows, key, name, age, phone) == rows
  {
    var r := UpdateByCpf(rows, key, name, age, phone);
    forall i | 0 <= i < |rows| ensures r[i] == rows[i] {
      assert rows[i] in rows;
    }
  }

  /** The row `INSERT INTO pacientes` appends, with the next AUTOINCREMENT id. */
  function Inserted(rows: seq<Patient>, nextId: nat, name: string, cpf: string, age: int, phone: string): seq<Patient> {
    rows + [Patient(nextId, name, cpf, age, phone)]
  }

  /** Appending a row whose CPF is not yet registered keeps the CPFs unique. */
  lemma AppendKeepsUnique(rows: seq<Patient>, p: Patient)
    requires CpfsUnique(rows) && p.cpf !in Cpfs(rows)
    ensures CpfsUnique(rows + [p])
  {
    var r := rows + [p];
    forall i, j | 0 <= i < j < |r| ensures r[i].cpf != r[j].cpf {
      assert r[i] == rows[i];
      if j < |rows| {
        assert r[j] == rows[j];
      } else {
        assert rows[i] in rows;
      }
    }
  }

  lemma InsertKeepsInvariant(rows: seq<Patient>, nextId: nat, name: string, cpf: string, age: int, phone: string)
    requires TableInvariant(rows, nextId) && cpf !in Cpfs(rows)
    ensures TableInvariant(Inserted(rows, nextId, name, cpf, age, phone), nextId + 1)
    ensures FindByCpf(Inserted(rows, nextId, name, cpf, age, phone), cpf) == Some(Patient(nextId, name, cpf, age, phone))
  {
    var p := Patient(nextId, name, cpf, age, phone);
    var r := Inserted(rows, nextId, name, cpf, age, phone);
    AppendKeepsUnique(rows, p);
    assert IdsIncreasing(r, nextId + 1) by {
      assert forall i :: 0 <= i < |rows| ==> r[i] == rows[i];
    }
    FindByCpfUnique(r, |rows|);
  }

  /** Deleting the CPF of a row just appended gives back the rows it was appended to. */
  lemma AppendThenDelete(rows: seq<Patient>, p: Patient)
    requires CpfsUnique(rows) && p.cpf !in Cpfs(rows)
    ensures DeleteByCpf(rows + [p], p.cpf) == rows
  {
    var r := rows + [p];
    AppendKeepsUnique(rows, p);
    assert r[|rows|] == p;
    DeleteExactlyOne(r, |rows|);
    assert r[..|rows|] == rows && r[|rows| + 1..] == [];
  }

  lemma RemoveAtKeepsInvariant(rows: seq<Patient>, nextId: nat, i: nat)
    requires TableInvariant(rows, nextId) && i < |rows|
    ensures TableInvariant(rows[..i] + rows[i + 1..], nextId)
  {
    var r := rows[..i] + rows[i + 1..];
    assert forall a :: 0 <= a < |r| ==> r[a] == rows[if a < i then a else a + 1];
  }

  lemma DeleteKeepsInvariant(rows: seq<Patient>, nextId: nat, key: string)
    requires TableInvariant(rows, nextId)
    ensures TableInvariant(DeleteByCpf(rows, key), nextId)
    ensures key !in Cpfs(DeleteByCpf(rows, key))
  {
    if key in Cpfs(rows) {
      var p :| p in rows && p.cpf == key;
      var i :| 0 <= i < |rows| && rows[i] == p;
      DeleteExactlyOne(rows, i);
      RemoveAtKeepsInvariant(rows, nextId, i);
    } else {
      DeleteAbsent(rows, key);
    }
    var r := DeleteByCpf(rows, key);
    forall p | p in r ensures p.cpf != key {
      var k :| 0 <= k < |r| && r[k] == p;
    }
  }

  lemma UpdateKeepsInvariant(rows: seq<Patient>, nextId: nat, key: string, name: string, age: int, phone: string)
    requires TableInvariant(rows, nextId)
    ensures TableInvariant(UpdateByCpf(rows, key, name, age, phone), nextId)
  {
  }

  /** With unique CPFs, the number of rows is the number of registered CPFs. */
  lemma {:induction false} CountIsDistinctCpfs(rows: seq<Patient>)
    requires CpfsUnique(rows)
    ensures |Cpfs(rows)| == |rows|
  {
    if rows != [] {
      var rest := rows[1..];
      TailUnique(rows);
      CountIsDistinctCpfs(rest);
      assert Cpfs(rows) == {rows[0].cpf} + Cpfs(rest) by {
        assert forall p :: p in rows <==> p == rows[0] || p in rest;
      }
    }
  }

  // ---------------------------------------------------------------------------
  // Listing
  // ---------------------------------------------------------------------------

  /** `nome LIKE '%term%' OR cpf LIKE '%term%'`. */
  predicate Matches(p: Patient, term: string) {
    ContainsIgnoringCase(p.name, term) || ContainsIgnoringCase(p.cpf, term)
  }

  /** The rows that match, in rowid order. */
  function Filter(rows: seq<Patient>, term: string): (r: seq<Patient>)
    ensures forall p :: p in r <==> p in rows && Matches(p, term)
    ensures |r| <= |rows|
  {
    if rows == [] then []
    else (if Matches(rows[0], term) then [rows[0]] else []) + Filter(rows[1..], term)
  }

  /** The WHERE clause is only added for a non-empty term. */
  function Select(rows: seq<Patient>, term: string): seq<Patient> {
    if term != "" then Filter(rows, term) else rows
  }

  /** Leaving out the WHERE clause for the empty term loses nothing: every row matches it. */
  lemma {:induction false} SelectIsFilter(rows: seq<Patient>, term: string)
    ensures Select(rows, term) == Filter(rows, term)
  {
    if term == "" && rows != [] {
      ContainsEmpty(rows[0].name);
      SelectIsFilter(rows[1..], term);
      assert [rows[0]] + rows[1..] == rows;
    }
  }

  /** The filter keeps each matching row exactly as often as the table holds it, and drops the rest. */
  lemma {:induction false} FilterMultiplicity(rows: seq<Patient>, term: string)
    ensures forall p :: multiset(Filter(rows, term))[p] == if Matches(p, term) then multiset(rows)[p] else 0
  {
    if rows != [] {
      var t := rows[1..];
      FilterMultiplicity(t, term);
      var head := if Matches(rows[0], term) then [rows[0]] else [];
      assert Filter(rows, term) == head + Filter(t, term);
      assert rows == [rows[0]] + t;
      forall p ensures multiset(Filter(rows, term))[p] == if Matches(p, term) then multiset(rows)[p] else 0 {
        assert multiset(Filter(rows, term))[p] == multiset(head)[p] + multiset(Filter(t, term))[p];
        assert multiset(rows)[p] == multiset([rows[0]])[p] + multiset(t)[p];
      }
    }
  }

  /** No row is listed more often than the table holds it. */
  lemma FilterSubMultiset(rows: seq<Patient>, term: string)
    ensures multiset(Filter(rows, term)) <= multiset(rows)
  {
    FilterMultiplicity(rows, term);
  }

  predicate SortedByName(s: seq<Patient>) {
    forall i :: 0 <= i < |s| - 1 ==> NameLe(s[i].name, s[i + 1].name)
  }

  function InsertByName(p: Patient, s: seq<Patient>): (r: seq<Patient>)
    ensures |r| == |s| + 1 && multiset(r) == multiset(s) + multiset{p}
    ensures r[0] == p || (s != [] && r[0] == s[0])
    ensures SortedByName(s) ==> SortedByName(r)
  {
    if s == [] then [p]
    else if NameLe(p.name, s[0].name) then [p] + s
    else
      NameLeTotal(p.name, s[0].name);
      assert s == [s[0]] + s[1..];
      [s[0]] + InsertByName(p, s[1..])
  }

  /**
   * `ORDER BY nome`. SQLite leaves the order of equal names open; the model keeps them in
   * rowid order.
   */
  function SortByName(s: seq<Patient>): (r: seq<Patient>)
    ensures |r| == |s| && multiset(r) == multiset(s)
    ensures SortedByName(r)
  {
    if s == [] then []
    else
      assert s == [s[0]] + s[1..];
      InsertByName(s[0], SortByName(s[1..]))
  }

  /** Sorted by neighbours means sorted between any two positions. */
  lemma {:induction false} SortedPairwise(s: seq<Patient>, i: nat, j: nat)
    requires SortedByName(s) && i <= j < |s|
    ensures NameLe(s[i].name, s[j].name)
    decreases j - i
  {
    if i == j {
      NameLeReflexive(s[i].name);
    } else {
      SortedPairwise(s, i + 1, j);
      NameLeTransitive(s[i].name, s[i + 1].name, s[j].name);
    }
  }

  lemma {:induction false} NameLeReflexive(a: string)
    ensures NameLe(a, a)
  {
    if a != [] { NameLeReflexive(a[1..]); }
  }

  /** How `listar_pacientes_bd` shows one row. */
  function Display(p: Patient): (l: Listed)
    ensures l.name == p.name && l.age == p.age
    ensures l.cpf == FormatDisplay(p.cpf)
    ensures p.phone == "" ==> l.phone == "N/A"
    ensures p.phone != "" ==> l.phone == p.phone
  {
    Listed(p.name, FormatDisplay(p.cpf), p.age, if p.phone == "" then "N/A" else p.phone)
  }

  function DisplayAll(s: seq<Patient>): seq<Listed> {
    seq(|s|, i requires 0 <= i < |s| => Display(s[i]))
  }

  /** The rows the listing query fetches, in name order. */
  function Fetched(rows: seq<Patient>, term: string): seq<Patient> {
    SortByName(Select(rows, term))
  }

  /** `listar_pacientes_bd(term)`. */
  function Listing(rows: seq<Patient>, term: string): seq<Listed> {
    DisplayAll(Fetched(rows, term))
  }

  /** The listing is in name order. */
  lemma ListingOrderedByName(rows: seq<Patient>, term: string, i: nat, j: nat)
    requires i <= j < |Listing(rows, term)|
    ensures NameLe(Listing(rows, term)[i].name, Listing(rows, term)[j].name)
  {
    SortedPairwise(Fetched(rows, term), i, j);
  }

  /** The listing shows exactly the matching rows, each once, formatted for display. */
  lemma ListingContents(rows: seq<Patient>, term: string)
    ensures multiset(Fetched(rows, term)) == multiset(Filter(rows, term))
    ensures forall p :: multiset(Fetched(rows, term))[p] == if Matches(p, term) then multiset(rows)[p] else 0
    ensures |Listing(rows, term)| == |Filter(rows, term)|
    ensures forall x :: x in Listing(rows, term) <==> exists p :: p in rows && Matches(p, term) && x == Display(p)
  {
    SelectIsFilter(rows, term);
    FilterMultiplicity(rows, term);
    forall x | x in Listing(rows, term) ensures exists p :: p in rows && Matches(p, term) && x == Display(p) {
      ListingOnlyMatches(rows, term, x);
    }
    forall x | exists p :: p in rows && Matches(p, term) && x == Display(p) ensures x in Listing(rows, term) {
      var p :| p in rows && Matches(p, term) && x == Display(p);
      ListingShows(rows, term, p);
    }
  }

  /** Whatever the listing shows is a matching row, formatted for display. */
  lemma ListingOnlyMatches(rows: seq<Patient>, term: string, x: Listed)
    requires x in Listing(rows, term)
    ensures exists p :: p in rows && Matches(p, term) && x == Display(p)
  {
    SelectIsFilter(rows, term);
    var f := Fetched(rows, term);
    var k :| 0 <= k < |f| && Listing(rows, term)[k] == x;
    assert f[k] in multiset(Filter(rows, term)) by { assert f[k] in multiset(f); }
    assert f[k] in rows && Matches(f[k], term);
  }

  /** A matching row is listed, formatted for display. */
  lemma ListingShows(rows: seq<Patient>, term: string, p: Patient)
    requires p in rows && Matches(p, term)
    ensures Display(p) in Listing(rows, term)
  {
    SelectIsFilter(rows, term);
    var f := Fetched(rows, term);
    assert p in multiset(f);
    var k :| 0 <= k < |f| && f[k] == p;
    assert Listing(rows, term)[k] == Display(p);
  }

  /**
   * A row just inserted is in the full listing with its masked CPF, and deleting by that
   * masked CPF, stripped again, gives back the table it was added to.
   */
  lemma InsertListDelete(rows: seq<Patient>, nextId: nat, name: string, cpf: string, age: int, phone: string)
    requires TableInvariant(rows, nextId) && cpf !in Cpfs(rows) && IsCanonical(cpf)
    ensures var after := Inserted(rows, nextId, name, cpf, age, phone);
      var shown := Display(Patient(nextId, name, cpf, age, phone));
      && shown in Listing(after, "")
      && shown.cpf == FormatDisplay(cpf)
      && DeleteByCpf(after, Digits(shown.cpf)) == rows
  {
    var after := Inserted(rows, nextId, name, cpf, age, phone);
    var p := Patient(nextId, name, cpf, age, phone);
    assert p in after by { assert after[|rows|] == p; }
    ContainsEmpty(name);
    ListingShows(after, "", p);
    StripDisplayRoundTrip(cpf);
    AppendThenDelete(rows, p);
  }
}
