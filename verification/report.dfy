/**
 * The text of `relatorio_pacientes.txt` as `exportar_pacientes_para_txt` builds it:
 * a banner, one fixed-width line per patient in name order, and the total.
 * The generation time is a parameter; writing the file is not modelled.
 */
module Report {
  import opened Wrappers
  import opened Text
  import opened Cpf
  import opened Patients

  const Rule: string := Repeat('=', 80)
  const Title: string := "RELAT\U{D3}RIO COMPLETO DE PACIENTES - CL\U{CD}NICA VIDA+"
  const NameWidth: nat := 35
  const CpfWidth: nat := 15
  const AgeWidth: nat := 5
  const PhoneWidth: nat := 15

  /** Four left-justified columns separated by single spaces. */
  function Columns(name: string, cpf: string, age: string, phone: string): string {
    PadRight(name, NameWidth) + " " + PadRight(cpf, CpfWidth) + " "
      + PadRight(age, AgeWidth) + " " + PadRight(phone, PhoneWidth)
  }

  function Header(timestamp: string): seq<string> {
    [ Rule,
      Title,
      "Data de Gera\U{E7}\U{E3}o: " + timestamp,
      Rule,
      Columns("Nome", "CPF", "Idade", "Telefone"),
      Repeat('-', 80) ]
  }

  /** One patient: its listing form, the age as `format(idade, '<5')` writes it. */
  function DataLine(p: Patient): string {
    var l := Display(p);
    Columns(l.name, l.cpf, IntToString(l.age), l.phone)
  }

  function Trailer(count: nat): seq<string> {
    [ "\n" + Rule,
      "Total de Pacientes: " + IntToString(count),
      Rule ]
  }

  function DataLines(s: seq<Patient>): seq<string> {
    seq(|s|, i requires 0 <= i < |s| => DataLine(s[i]))
  }

  /**
   * The report lines for the whole table (never the search filter), or `None` when
   * the table is empty and no file is written.
   */
  function ReportLines(rows: seq<Patient>, timestamp: string): (r: Option<seq<string>>)
    ensures r.None? <==> rows == []
    ensures r.Some? ==> |r.value| == |Header(timestamp)| + |rows| + |Trailer(|rows|)|
  {
    if rows == [] then None
    else Some(Header(timestamp) + DataLines(Fetched(rows, "")) + Trailer(|rows|))
  }

  /** The fixed frame: six header lines, then one line per patient in name order, then three trailer lines. */
  lemma ReportLayout(rows: seq<Patient>, timestamp: string)
    requires rows != []
    ensures var lines := ReportLines(rows, timestamp).value;
      && |lines| == 6 + |rows| + 3
      && lines[..6] == Header(timestamp)
      && lines[2] == "Data de Gera\U{E7}\U{E3}o: " + timestamp
      && (forall i :: 0 <= i < |rows| ==> lines[6 + i] == DataLine(Fetched(rows, "")[i]))
  {
    var s := Fetched(rows, "");
    assert |s| == |rows|;
    var h := Header(timestamp);
    assert |h| == 6;
    ThreeParts(h, DataLines(s), Trailer(|rows|));
  }

  /** The report ends with the patient count and the closing rule. */
  lemma ReportTrailer(rows: seq<Patient>, timestamp: string)
    requires rows != []
    ensures var lines := ReportLines(rows, timestamp).value;
      && lines[|lines| - 2] == "Total de Pacientes: " + IntToString(|rows|)
      && lines[|lines| - 1] == Rule
  {
    var s := Fetched(rows, "");
    assert |s| == |rows|;
    ThreeParts(Header(timestamp), DataLines(s), Trailer(|rows|));
  }

  /** A sequence built from three parts holds each part at its offset. */
  lemma ThreeParts(h: seq<string>, d: seq<string>, t: seq<string>)
    ensures var s := h + d + t;
      && |s| == |h| + |d| + |t|
      && s[..|h|] == h
      && (forall i :: 0 <= i < |d| ==> s[|h| + i] == d[i])
      && (forall k :: 0 <= k < |t| ==> s[|h| + |d| + k] == t[k])
  {
    var s := h + d + t;
    assert s[..|h|] == h;
  }

  /** The data lines follow the listing order, so they are sorted by name. */
  lemma ReportInNameOrder(rows: seq<Patient>, timestamp: string, i: nat, j: nat)
    requires i <= j < |rows|
    ensures ReportLines(rows, timestamp).Some?
    ensures var s := Fetched(rows, "");
      && ReportLines(rows, timestamp).value[6 + i] == DataLine(s[i])
      && ReportLines(rows, timestamp).value[6 + j] == DataLine(s[j])
      && NameLe(s[i].name, s[j].name)
  {
    ReportLayout(rows, timestamp);
    SortedPairwise(Fetched(rows, ""), i, j);
  }

  /** Every patient of the table has its line in the report. */
  lemma ReportCoversTable(rows: seq<Patient>, timestamp: string, p: Patient)
    requires p in rows
    ensures DataLine(p) in ReportLines(rows, timestamp).value[6..6 + |rows|]
  {
    var s := Fetched(rows, "");
    var d := DataLines(s);
    var lines := ReportLines(rows, timestamp).value;
    assert lines == Header(timestamp) + d + Trailer(|rows|);
    assert lines[6..6 + |rows|] == d;
    SelectIsFilter(rows, "");
    ListingContents(rows, "");
    assert p in multiset(s);
    var i :| 0 <= i < |s| && s[i] == p;
    assert d[i] == DataLine(p);
  }

  /**
   * Padding never truncates: a data line starts with the full name, and when each field
   * fits its column the line is 73 characters with every field at its fixed column.
   */
  lemma DataLineColumns(p: Patient)
    ensures var line := DataLine(p);
      && |line| >= NameWidth + CpfWidth + AgeWidth + PhoneWidth + 3
      && line[..|p.name|] == p.name
    ensures var line := DataLine(p);
      var l := Display(p);
      var age := IntToString(p.age);
      |p.name| <= NameWidth && |l.cpf| <= CpfWidth && |age| <= AgeWidth && |l.phone| <= PhoneWidth ==>
        && |line| == 73
        && line[36..36 + |l.cpf|] == l.cpf
        && line[52..52 + |age|] == age
        && line[58..58 + |l.phone|] == l.phone
  {
    var l := Display(p);
    ColumnsAt(l.name, l.cpf, IntToString(l.age), l.phone);
  }

  /** Where the four fields land in a `Columns` line. */
  lemma ColumnsAt(name: string, cpf: string, age: string, phone: string)
    ensures var line := Columns(name, cpf, age, phone);
      && |line| >= NameWidth + CpfWidth + AgeWidth + PhoneWidth + 3
      && line[..|name|] == name
    ensures var line := Columns(name, cpf, age, phone);
      |name| <= NameWidth && |cpf| <= CpfWidth && |age| <= AgeWidth && |phone| <= PhoneWidth ==>
        && |line| == 73
        && line[36..36 + |cpf|] == cpf
        && line[52..52 + |age|] == age
        && line[58..58 + |phone|] == phone
  {
    var a, b, c, d := PadRight(name, NameWidth), PadRight(cpf, CpfWidth), PadRight(age, AgeWidth), PadRight(phone, PhoneWidth);
    var line := Columns(name, cpf, age, phone);
    assert line == a + " " + b + " " + c + " " + d;
    assert line[..|a|] == a;
    if |name| <= NameWidth && |cpf| <= CpfWidth && |age| <= AgeWidth && |phone| <= PhoneWidth {
      assert line[36..51] == b;
      assert line[52..57] == c;
      assert line[58..] == d;
    }
  }
}
