/** The stages of `limpar_dados` (utils/cleaner.py), each a pure function
    from table to table, plus the schema check `validar_colunas_esperadas`. */
module Cleaner {
  import opened Wrappers
  import opened Tables
  import opened Notes
  import Seqs
  import Text

  const IdFatura := "id_fatura"
  const IdCliente := "id_cliente"
  const NomeCliente := "nome_cliente"
  const DataEmissao := "data_emissao"
  const DataVencimento := "data_vencimento"
  const ValorBase := "valor_base"
  const Imposto := "imposto"
  const ValorTotal := "valor_total"
  const Status := "status"
  const MetodoPagamento := "metodo_pagamento"
  const Alerta := "alerta"
  const Duplicata := "duplicata"
  /** The helper column of the totals check, dropped before returning. */
  const ValorCalculado := "_valor_calculado"

  /** The column names the stages read and write are pairwise distinct. */
  lemma ColumnNamesDistinct()
    ensures Obs !in {IdFatura, DataEmissao, DataVencimento, ValorBase, Imposto, ValorTotal, Status, MetodoPagamento, Alerta, Duplicata, ValorCalculado}
    ensures ValorCalculado !in {IdFatura, DataEmissao, DataVencimento, ValorBase, Imposto, ValorTotal, Status, MetodoPagamento, Alerta, Duplicata}
    ensures Alerta !in {IdFatura, DataEmissao, DataVencimento, ValorBase, Imposto, ValorTotal, Status, MetodoPagamento, Duplicata}
    ensures Duplicata !in {IdFatura, DataEmissao, DataVencimento, ValorBase, Imposto, ValorTotal, Status, MetodoPagamento}
    ensures ValorTotal !in {IdFatura, DataEmissao, DataVencimento, ValorBase, Imposto, Status, MetodoPagamento}
    ensures DataEmissao !in {IdFatura, DataVencimento, ValorBase, Imposto, Status, MetodoPagamento}
    ensures IdFatura !in {DataVencimento, ValorBase, Imposto, Status, MetodoPagamento}
  {
  }

  /** `COLUNAS_REQUERIDAS`. */
  const RequiredColumns: seq<string> :=
    [IdFatura, IdCliente, NomeCliente, DataEmissao, DataVencimento, ValorBase, Imposto, ValorTotal]

  /** `ALTA_ALERTA`: the default alert threshold. */
  const DefaultThreshold: real := 20000.0

  // ---------------------------------------------------------------------
  // Schema validation

  /** The required columns the table lacks, in the order they are declared. */
  function MissingColumns(cols: set<string>): (missing: seq<string>)
    ensures forall c :: c in missing <==> c in RequiredColumns && c !in cols
    ensures Seqs.IsSubsequence(missing, RequiredColumns)
  {
    var missing := Seqs.Filter(RequiredColumns, c => c !in cols);
    assert forall c :: c in missing <==> c in multiset(missing);
    missing
  }

  /** `validar_colunas_esperadas`: true exactly when all eight required
      columns are present. */
  function ValidateColumns(t: Table): (ok: bool)
    ensures ok <==> forall c :: c in RequiredColumns ==> c in t.cols
  {
    MissingColumns(t.cols) == []
  }

  // ---------------------------------------------------------------------
  // Stage 1: `dropna(how="all")`

  /** Every cell of the row is missing. */
  predicate EntirelyEmpty(r: Row) {
    forall c | c in r :: r[c].Missing?
  }

  /** Removes the rows whose every cell is missing, keeping the others in order. */
  function DropEmptyRows(t: Table): (r: Table)
    requires WellFormed(t)
    ensures WellFormed(r) && r.cols == t.cols
    ensures forall x :: multiset(r.rows)[x] == (if EntirelyEmpty(x) then 0 else multiset(t.rows)[x])
    ensures Seqs.IsSubsequence(r.rows, t.rows)
  {
    var kept := Seqs.Filter(t.rows, (x: Row) => !EntirelyEmpty(x));
    assert forall i :: 0 <= i < |kept| ==> kept[i] in multiset(kept);
    Table(t.cols, kept)
  }

  /** A table without entirely empty rows is kept as it is. */
  lemma DropEmptyRowsKeepsFullRows(t: Table)
    requires WellFormed(t) && forall i :: 0 <= i < |t.rows| ==> !EntirelyEmpty(t.rows[i])
    ensures DropEmptyRows(t) == t
  {
    Seqs.FilterKeepsAll(t.rows, (x: Row) => !EntirelyEmpty(x));
  }

  // ---------------------------------------------------------------------
  // Stage 2: date coercion

  function DateMessage(c: string): (msg: string)
    ensures msg != ""
  {
    "Data '" + c + "' inválida/convertida para NaT"
  }

  /** `pd.to_datetime(v, errors="coerce")` on one cell. */
  function ParseDate(lib: Library, v: Value): (d: Value)
    ensures d.Missing? || d.Date?
    ensures v.Missing? ==> d == Missing
    ensures v.Date? ==> d == v
  {
    match v
    case Missing => Missing
    case Date(_) => v
    case _ => match lib.toDate(v) case Some(day) => Date(day) case None => Missing
  }

  /** Some present cell of column `c` fails to parse as a date. */
  predicate NewDateFailure(lib: Library, rows: seq<Row>, c: string) {
    exists i :: 0 <= i < |rows| && !Lookup(rows[i], c).Missing? && ParseDate(lib, Lookup(rows[i], c)).Missing?
  }

  /** Counting missing cells before and after a parse that never turns a
      missing cell into a present one: the count grows exactly when some
      present cell became missing. */
  lemma {:induction false} MissingCountGrows(before: seq<Value>, after: seq<Value>)
    requires |before| == |after|
    requires forall i :: 0 <= i < |before| && before[i].Missing? ==> after[i].Missing?
    ensures multiset(after)[Missing] >= multiset(before)[Missing]
    ensures multiset(after)[Missing] > multiset(before)[Missing] <==>
            exists i :: 0 <= i < |before| && !before[i].Missing? && after[i].Missing?
  {
    var n := |before|;
    if n > 0 {
      var b, a := before[..n - 1], after[..n - 1];
      MissingCountGrows(b, a);
      assert before == b + [before[n - 1]];
      assert after == a + [after[n - 1]];
      if exists i :: 0 <= i < |b| && !b[i].Missing? && a[i].Missing? {
        var i :| 0 <= i < |b| && !b[i].Missing? && a[i].Missing?;
        assert !before[i].Missing? && after[i].Missing?;
      }
      if exists i :: 0 <= i < n && !before[i].Missing? && after[i].Missing? {
        var i :| 0 <= i < n && !before[i].Missing? && after[i].Missing?;
        if i < n - 1 {
          assert !b[i].Missing? && a[i].Missing?;
        }
      }
    }
  }

  /** One row of the date loop: the cell is parsed; when the stage noted
      new failures (`grew`), the row is noted if its cell is missing after
      parsing, including a cell that was missing before. */
  function DateRow(lib: Library, r: Row, c: string, grew: bool): (r': Row)
    requires c in r && (c == DataEmissao || c == DataVencimento)
    ensures r'.Keys == r.Keys + (if grew then {Obs} else {})
    ensures r'[c] == ParseDate(lib, r[c])
    ensures SameExcept(r, r', {c, Obs})
    ensures NoteText(lib, r') == if grew && r'[c].Missing? then Appended(lib, r, DateMessage(c)) else NoteText(lib, r)
  {
    ColumnNamesDistinct();
    var d := ParseDate(lib, r[c]);
    StageRow(lib, r, c, d, if grew && d.Missing? then Some(DateMessage(c)) else None, grew)
  }

  /** Column `c` after `pd.to_datetime(errors="coerce")`. */
  function ParsedDates(lib: Library, rows: seq<Row>, c: string): (ps: seq<Value>)
    ensures |ps| == |rows|
    ensures forall i :: 0 <= i < |rows| ==> ps[i] == ParseDate(lib, Lookup(rows[i], c))
  {
    Seqs.Map(rows, (r: Row) => ParseDate(lib, Lookup(r, c)))
  }

  /** The stage's test, more missing cells after parsing than before, holds
      exactly when some present cell failed to parse. */
  lemma DateFailuresCounted(lib: Library, rows: seq<Row>, c: string)
    ensures multiset(ParsedDates(lib, rows, c))[Missing] > multiset(Column(rows, c))[Missing] <==>
            NewDateFailure(lib, rows, c)
  {
    var before, parsed := Column(rows, c), ParsedDates(lib, rows, c);
    MissingCountGrows(before, parsed);
    if NewDateFailure(lib, rows, c) {
      var i :| 0 <= i < |rows| && !Lookup(rows[i], c).Missing? && ParseDate(lib, Lookup(rows[i], c)).Missing?;
      assert !before[i].Missing? && parsed[i].Missing?;
    }
  }

  /** One iteration of the date loop of `limpar_dados`: the stage counts the
      missing cells before and after parsing, and notes rows only when the
      count grew, which by `DateFailuresCounted` happens exactly when some
      present cell failed to parse. */
  function CoerceDates(lib: Library, t: Table, c: string): (r: Table)
    requires WellFormed(t)
    requires c == DataEmissao || c == DataVencimento
    ensures WellFormed(r) && |r.rows| == |t.rows|
    ensures c !in t.cols ==> r == t
    ensures c in t.cols ==> r.cols == t.cols + (if NewDateFailure(lib, t.rows, c) then {Obs} else {})
    ensures c in t.cols ==> forall i :: 0 <= i < |t.rows| ==>
              r.rows[i] == DateRow(lib, t.rows[i], c, NewDateFailure(lib, t.rows, c))
  {
    if c !in t.cols then t
    else
      var grew := NewDateFailure(lib, t.rows, c);
      Table(t.cols + (if grew then {Obs} else {}),
            seq(|t.rows|, i requires 0 <= i < |t.rows| => DateRow(lib, t.rows[i], c, grew)))
  }

  /** A column that already holds dates comes out of the coercion unchanged
      and without notes. */
  lemma CoerceDatesKeepsDates(lib: Library, t: Table, c: string)
    requires WellFormed(t)
    requires c == DataEmissao || c == DataVencimento
    requires c in t.cols && forall i :: 0 <= i < |t.rows| ==> t.rows[i][c].Date?
    ensures CoerceDates(lib, t, c) == t
  {
    var r := CoerceDates(lib, t, c);
    assert !NewDateFailure(lib, t.rows, c);
    forall i | 0 <= i < |t.rows|
      ensures r.rows[i] == t.rows[i]
    {
      DateRowKeepsDate(lib, t.rows[i], c);
    }
  }

  /** A row whose cell is already a date, in a stage that noted nothing,
      is left as it is. */
  lemma DateRowKeepsDate(lib: Library, r: Row, c: string)
    requires c in r && (c == DataEmissao || c == DataVencimento) && r[c].Date?
    ensures DateRow(lib, r, c, false) == r
  {
    SameRow(r, DateRow(lib, r, c, false), {c, Obs});
  }

  // ---------------------------------------------------------------------
  // Stage 3: amount coercion

  function AmountMessage(c: string): (msg: string)
    ensures msg != ""
  {
    "'" + c + "' inválido -> convertido 0"
  }

  /** `pd.to_numeric(v, errors="coerce")` on one cell; None is NaN. */
  function ParseNumber(lib: Library, v: Value): (n: Option<real>)
    ensures v.Missing? ==> n.None?
    ensures v.Num? ==> n == Some(v.x)
  {
    match v
    case Missing => None
    case Num(x) => Some(x)
    case _ => lib.toNumber(v)
  }

  /** A present cell that does not parse as a number. */
  predicate Malformed(lib: Library, v: Value) {
    !v.Missing? && ParseNumber(lib, v).None?
  }

  /** One row of the amount loop: a malformed cell is noted, then the cell
      becomes a number, 0.0 standing for a cell that was missing or
      malformed. `create` says whether the stage creates the note column. */
  function AmountRow(lib: Library, r: Row, c: string, create: bool): (r': Row)
    requires c in r && (c == ValorBase || c == Imposto || c == ValorTotal)
    requires Malformed(lib, r[c]) ==> create
    ensures r'.Keys == r.Keys + (if create then {Obs} else {})
    ensures r'[c].Num?
    ensures ParseNumber(lib, r[c]).Some? ==> r'[c] == Num(ParseNumber(lib, r[c]).value)
    ensures ParseNumber(lib, r[c]).None? ==> r'[c] == Num(0.0)
    ensures SameExcept(r, r', {c, Obs})
    ensures NoteText(lib, r') == if Malformed(lib, r[c]) then Appended(lib, r, AmountMessage(c)) else NoteText(lib, r)
  {
    ColumnNamesDistinct();
    StageRow(lib, r, c, Num(ParseNumber(lib, r[c]).GetOr(0.0)),
             if Malformed(lib, r[c]) then Some(AmountMessage(c)) else None, create)
  }

  /** Some present cell of column `c` does not parse as a number. */
  predicate AnyMalformed(lib: Library, t: Table, c: string)
    requires WellFormed(t) && c in t.cols
  {
    exists i :: 0 <= i < |t.rows| && Malformed(lib, t.rows[i][c])
  }

  /** One iteration of the amount loop of `limpar_dados` over the whole
      table; the note column is created when some cell is malformed. */
  function CoerceAmount(lib: Library, t: Table, c: string): (r: Table)
    requires WellFormed(t)
    requires c == ValorBase || c == Imposto || c == ValorTotal
    ensures WellFormed(r) && |r.rows| == |t.rows|
    ensures c !in t.cols ==> r == t
    ensures c in t.cols ==> r.cols == t.cols + (if AnyMalformed(lib, t, c) then {Obs} else {})
    ensures c in t.cols ==> forall i :: 0 <= i < |t.rows| ==> r.rows[i] == AmountRow(lib, t.rows[i], c, AnyMalformed(lib, t, c))
  {
    if c !in t.cols then t
    else
      var create := AnyMalformed(lib, t, c);
      Table(t.cols + (if create then {Obs} else {}),
            seq(|t.rows|, i requires 0 <= i < |t.rows| => AmountRow(lib, t.rows[i], c, create)))
  }

  /** A column that already holds numbers comes out of the coercion unchanged
      and without notes: the round trip of a well-formed value. */
  lemma CoerceAmountKeepsNumbers(lib: Library, t: Table, c: string)
    requires WellFormed(t)
    requires c == ValorBase || c == Imposto || c == ValorTotal
    requires c in t.cols && forall i :: 0 <= i < |t.rows| ==> t.rows[i][c].Num?
    ensures CoerceAmount(lib, t, c) == t
  {
    var r := CoerceAmount(lib, t, c);
    forall i | 0 <= i < |t.rows|
      ensures r.rows[i] == t.rows[i]
    {
      SameRow(t.rows[i], r.rows[i], {c, Obs});
    }
  }

  // ---------------------------------------------------------------------
  // Stage 4: text standardisation

  datatype TextField = StatusField | PaymentMethodField

  function FieldColumn(f: TextField): string {
    match f
    case StatusField => Status
    case PaymentMethodField => MetodoPagamento
  }

  /** The note written when a stripped value is not already title-cased. */
  function StandardizedMessage(f: TextField, s: string): (msg: string)
    ensures msg != ""
  {
    match f
    case StatusField => "Status padronizado ('" + s + "' -> '" + Text.Title(s) + "')"
    case PaymentMethodField => "Metodo pagamento padronizado"
  }

  /** `.astype(str).str.strip()` of one cell. */
  function Stripped(lib: Library, v: Value): string {
    Text.Trim(Render(lib, v))
  }

  /** Title-casing would change the stripped value. */
  predicate NeedsTitle(lib: Library, v: Value) {
    Text.Title(Stripped(lib, v)) != Stripped(lib, v)
  }

  /** One row of the `status` / `metodo_pagamento` block: the cell becomes
      its stripped, title-cased text, and the row is noted when title-casing
      changed the stripped text. */
  function TextRow(lib: Library, r: Row, f: TextField, create: bool): (r': Row)
    requires FieldColumn(f) in r
    requires NeedsTitle(lib, r[FieldColumn(f)]) ==> create
    ensures r'.Keys == r.Keys + (if create then {Obs} else {})
    ensures r'[FieldColumn(f)] == Str(Text.Title(Stripped(lib, r[FieldColumn(f)])))
    ensures SameExcept(r, r', {FieldColumn(f), Obs})
    ensures NoteText(lib, r') ==
              if NeedsTitle(lib, r[FieldColumn(f)])
              then Appended(lib, r, StandardizedMessage(f, Stripped(lib, r[FieldColumn(f)])))
              else NoteText(lib, r)
  {
    var c := FieldColumn(f);
    var s := Stripped(lib, r[c]);
    ColumnNamesDistinct();
    StageRow(lib, r, c, Str(Text.Title(s)),
             if NeedsTitle(lib, r[c]) then Some(StandardizedMessage(f, s)) else None, create)
  }

  /** A standardised cell needs no further standardising: its text is
      already stripped and title-cased. */
  lemma StandardizedIsFixed(lib: Library, v: Value)
    ensures !NeedsTitle(lib, Str(Text.Title(Stripped(lib, v))))
    ensures Stripped(lib, Str(Text.Title(Stripped(lib, v)))) == Text.Title(Stripped(lib, v))
  {
    var s := Stripped(lib, v);
    Text.TrimOfTitleOfTrimmed(Render(lib, v));
    Text.TitleIdempotent(s);
  }

  /** Whitespace around an already stripped, title-cased value is removed
      without a note. */
  lemma PaddingIsQuiet(lib: Library, p: string, s: string, q: string)
    requires forall i :: 0 <= i < |p| ==> Text.IsWhitespace(p[i])
    requires forall i :: 0 <= i < |q| ==> Text.IsWhitespace(q[i])
    requires s == [] || (!Text.IsWhitespace(s[0]) && !Text.IsWhitespace(s[|s| - 1]))
    requires Text.Title(s) == s
    ensures !NeedsTitle(lib, Str(p + s + q))
    ensures Text.Title(Stripped(lib, Str(p + s + q))) == s
  {
    Text.TrimOfPadded(p, s, q);
  }

  /** Some row of the table needs title-casing in column `FieldColumn(f)`. */
  predicate AnyNeedsTitle(lib: Library, t: Table, f: TextField)
    requires WellFormed(t) && FieldColumn(f) in t.cols
  {
    exists i :: 0 <= i < |t.rows| && NeedsTitle(lib, t.rows[i][FieldColumn(f)])
  }

  /** The `status` / `metodo_pagamento` block of `limpar_dados` over the
      whole table; skipped when the column is absent. */
  function NormalizeText(lib: Library, t: Table, f: TextField): (r: Table)
    requires WellFormed(t)
    ensures WellFormed(r) && |r.rows| == |t.rows|
    ensures FieldColumn(f) !in t.cols ==> r == t
    ensures FieldColumn(f) in t.cols ==> r.cols == t.cols + (if AnyNeedsTitle(lib, t, f) then {Obs} else {})
    ensures FieldColumn(f) in t.cols ==> forall i :: 0 <= i < |t.rows| ==>
              r.rows[i] == TextRow(lib, t.rows[i], f, AnyNeedsTitle(lib, t, f))
  {
    if FieldColumn(f) !in t.cols then t
    else
      var create := AnyNeedsTitle(lib, t, f);
      Table(t.cols + (if create then {Obs} else {}),
            seq(|t.rows|, i requires 0 <= i < |t.rows| => TextRow(lib, t.rows[i], f, create)))
  }

  /** Standardising an already standardised column changes nothing and adds
      no note. */
  lemma NormalizeTextIdempotent(lib: Library, t: Table, f: TextField)
    requires WellFormed(t)
    ensures NormalizeText(lib, NormalizeText(lib, t, f), f) == NormalizeText(lib, t, f)
  {
    var c := FieldColumn(f);
    var once := NormalizeText(lib, t, f);
    if c in t.cols {
      forall i | 0 <= i < |once.rows| ensures !NeedsTitle(lib, once.rows[i][c]) {
        StandardizedIsFixed(lib, t.rows[i][c]);
      }
      assert !AnyNeedsTitle(lib, once, f);
      var twice := NormalizeText(lib, once, f);
      forall i | 0 <= i < |once.rows|
        ensures twice.rows[i] == once.rows[i]
      {
        StandardRowFixed(lib, t.rows[i], f, AnyNeedsTitle(lib, t, f));
      }
    }
  }

  /** A row that has been standardised is left as it is by a second pass
      that notes nothing. */
  lemma StandardRowFixed(lib: Library, r: Row, f: TextField, create: bool)
    requires FieldColumn(f) in r
    requires NeedsTitle(lib, r[FieldColumn(f)]) ==> create
    ensures var a := TextRow(lib, r, f, create);
            !NeedsTitle(lib, a[FieldColumn(f)]) && TextRow(lib, a, f, false) == a
  {
    var c := FieldColumn(f);
    var a := TextRow(lib, r, f, create);
    StandardizedIsFixed(lib, r[c]);
    var b := TextRow(lib, a, f, false);
    assert Agree(a, b, c);
    assert Agree(a, b, Obs);
    SameRow(a, b, {c, Obs});
  }



  // ---------------------------------------------------------------------
  // Stage 5: the totals check

  /** Every cell of column `c`, if the table has it, is a number. */
  predicate NumericColumn(t: Table, c: string) {
    c in t.cols ==> forall i :: 0 <= i < |t.rows| ==> Lookup(t.rows[i], c).Num?
  }

  /** The check runs only when all three amount columns exist. */
  predicate TotalsChecked(t: Table) {
    ValorBase in t.cols && Imposto in t.cols && ValorTotal in t.cols
  }

  /** `round(valor_base + imposto, 2)` of a row whose two amounts are numbers. */
  function Recomputed(lib: Library, r: Row): real
    requires Lookup(r, ValorBase).Num? && Lookup(r, Imposto).Num?
  {
    lib.round2(Lookup(r, ValorBase).x + Lookup(r, Imposto).x)
  }

  /** The recomputed total is not equal to the stored one. */
  predicate TotalDiffers(lib: Library, r: Row)
    requires Lookup(r, ValorBase).Num? && Lookup(r, Imposto).Num?
  {
    Num(Recomputed(lib, r)) != Lookup(r, ValorTotal)
  }

  function TotalMessage(lib: Library, r: Row): (msg: string)
    requires Lookup(r, ValorBase).Num? && Lookup(r, Imposto).Num?
    ensures msg != ""
  {
    "Valor_total difere do cálculo (calc=" + lib.showNum(Recomputed(lib, r))
      + ", original=" + Render(lib, Lookup(r, ValorTotal)) + ")"
  }

  /** One row of the consistency block: noted when its recomputed total
      differs from the stored one; no cell other than the note changes. */
  function TotalRow(lib: Library, r: Row, create: bool): (r': Row)
    requires Lookup(r, ValorBase).Num? && Lookup(r, Imposto).Num?
    requires TotalDiffers(lib, r) ==> create
    ensures r'.Keys == r.Keys + (if create then {Obs} else {})
    ensures SameExcept(r, r', {Obs})
    ensures NoteText(lib, r') ==
              if TotalDiffers(lib, r) then Appended(lib, r, TotalMessage(lib, r)) else NoteText(lib, r)
  {
    NoteRow(lib, r, if TotalDiffers(lib, r) then Some(TotalMessage(lib, r)) else None, create)
  }

  /** Some row's recomputed total differs from the stored one. */
  predicate AnyTotalDiffers(lib: Library, t: Table)
    requires NumericColumn(t, ValorBase) && NumericColumn(t, Imposto) && TotalsChecked(t)
  {
    exists i :: 0 <= i < |t.rows| && TotalDiffers(lib, t.rows[i])
  }

  /** The consistency block of `limpar_dados`: when all three amount columns
      exist, rows whose rounded `valor_base + imposto` differs from
      `valor_total` are noted. The stored total is kept. */
  function CheckTotals(lib: Library, t: Table): (r: Table)
    requires WellFormed(t) && NumericColumn(t, ValorBase) && NumericColumn(t, Imposto)
    ensures WellFormed(r) && |r.rows| == |t.rows|
    ensures !TotalsChecked(t) ==> r == t
    ensures TotalsChecked(t) ==> r.cols == t.cols + (if AnyTotalDiffers(lib, t) then {Obs} else {})
    ensures TotalsChecked(t) ==> forall i :: 0 <= i < |t.rows| ==>
              r.rows[i] == TotalRow(lib, t.rows[i], AnyTotalDiffers(lib, t))
  {
    if !TotalsChecked(t) then t
    else
      var create := AnyTotalDiffers(lib, t);
      Table(t.cols + (if create then {Obs} else {}),
            seq(|t.rows|, i requires 0 <= i < |t.rows| => TotalRow(lib, t.rows[i], create)))
  }

  /** When every stored total matches its recomputation the check changes
      nothing. */
  lemma CheckTotalsQuietWhenConsistent(lib: Library, t: Table)
    requires WellFormed(t) && NumericColumn(t, ValorBase) && NumericColumn(t, Imposto)
    requires TotalsChecked(t) && forall i :: 0 <= i < |t.rows| ==> !TotalDiffers(lib, t.rows[i])
    ensures CheckTotals(lib, t) == t
  {
    var r := CheckTotals(lib, t);
    forall i | 0 <= i < |t.rows|
      ensures r.rows[i] == t.rows[i]
    {
      SameRow(t.rows[i], r.rows[i], {Obs});
    }
  }

  // ---------------------------------------------------------------------
  // Stage 6: alert classification (`alerta_row`)

  datatype Alert = InvalidValue | Negative | Zero | AboveLimit | Ok

  /** The text `alerta_row` returns. */
  function Label(a: Alert): string {
    match a
    case InvalidValue => "Valor inválido"
    case Negative => "Negativo"
    case Zero => "Zero"
    case AboveLimit => "Acima do limite"
    case Ok => "OK"
  }

  /** Distinct alerts have distinct labels. */
  lemma LabelInjective(a: Alert, b: Alert)
    ensures Label(a) == Label(b) ==> a == b
  {
    if a != b {
      assert |Label(a)| != |Label(b)|;
    }
  }

  /** `valor_total` can be compared with numbers: absent, missing or a number. */
  predicate AlertReadable(r: Row) {
    ValorTotal in r ==> r[ValorTotal].Num? || r[ValorTotal].Missing?
  }

  /** `row.get("valor_total", 0.0)`; None is NaN. */
  function AlertAmount(r: Row): (amount: Option<real>)
    requires AlertReadable(r)
    ensures ValorTotal !in r ==> amount == Some(0.0)
    ensures ValorTotal in r ==> (amount.None? <==> r[ValorTotal].Missing?)
    ensures ValorTotal in r && r[ValorTotal].Num? ==> amount == Some(r[ValorTotal].x)
  {
    if ValorTotal !in r then Some(0.0)
    else match r[ValorTotal] case Num(x) => Some(x) case _ => None
  }

  /** `alerta_row`: the rules are tried in order and the first that matches
      wins, which makes each outcome's condition exclusive of the earlier ones. */
  function Classify(amount: Option<real>, threshold: real): (a: Alert)
    ensures a == InvalidValue <==> amount.None?
    ensures a == Negative <==> amount.Some? && amount.value < 0.0
    ensures a == Zero <==> amount.Some? && amount.value == 0.0
    ensures a == AboveLimit <==> amount.Some? && amount.value > 0.0 && amount.value > threshold
    ensures a == Ok <==> amount.Some? && amount.value > 0.0 && amount.value <= threshold
  {
    match amount
    case None => InvalidValue
    case Some(x) =>
      if x < 0.0 then Negative
      else if x == 0.0 then Zero
      else if x > threshold then AboveLimit
      else Ok
  }

  /** The note each alert adds: one for Negativo, Zero and Acima do limite,
      none for OK and Valor inválido. */
  function AlertMessage(lib: Library, a: Alert, threshold: real): (m: Option<string>)
    ensures m.Some? <==> a in {Negative, Zero, AboveLimit}
    ensures m.Some? ==> m.value != ""
  {
    match a
    case Negative => Some("Detectado valor negativo")
    case Zero => Some("Detectado valor zero")
    case AboveLimit => Some("Valor acima do limiar (" + lib.showNum(threshold) + ")")
    case _ => None
  }

  function AlertOf(r: Row, threshold: real): Alert
    requires AlertReadable(r)
  {
    Classify(AlertAmount(r), threshold)
  }

  /** One row of the alert block: `alerta` is set to the label of the
      row's alert, and the row is noted for Negativo, Zero and Acima do limite. */
  function AlertRow(lib: Library, r: Row, threshold: real, create: bool): (r': Row)
    requires AlertReadable(r)
    requires AlertMessage(lib, AlertOf(r, threshold), threshold).Some? ==> create
    ensures r'.Keys == r.Keys + {Alerta} + (if create then {Obs} else {})
    ensures r'[Alerta] == Str(Label(AlertOf(r, threshold)))
    ensures SameExcept(r, r', {Alerta, Obs})
    ensures NoteText(lib, r') ==
              match AlertMessage(lib, AlertOf(r, threshold), threshold)
              case Some(m) => Appended(lib, r, m)
              case None => NoteText(lib, r)
  {
    ColumnNamesDistinct();
    StageRow(lib, r, Alerta, Str(Label(AlertOf(r, threshold))), AlertMessage(lib, AlertOf(r, threshold), threshold), create)
  }

  /** Some row raises an alert that carries a note. */
  predicate AnyAlertNote(lib: Library, t: Table, threshold: real)
    requires forall i :: 0 <= i < |t.rows| ==> AlertReadable(t.rows[i])
  {
    exists i :: 0 <= i < |t.rows| && AlertMessage(lib, AlertOf(t.rows[i], threshold), threshold).Some?
  }

  /** The `alerta` column and the three alert masks of `limpar_dados`; the
      column is always created. */
  function ClassifyAlerts(lib: Library, t: Table, threshold: real): (r: Table)
    requires WellFormed(t)
    requires forall i :: 0 <= i < |t.rows| ==> AlertReadable(t.rows[i])
    ensures WellFormed(r) && |r.rows| == |t.rows|
    ensures r.cols == t.cols + {Alerta} + (if AnyAlertNote(lib, t, threshold) then {Obs} else {})
    ensures forall i :: 0 <= i < |t.rows| ==> r.rows[i] == AlertRow(lib, t.rows[i], threshold, AnyAlertNote(lib, t, threshold))
  {
    var create := AnyAlertNote(lib, t, threshold);
    Table(t.cols + {Alerta} + (if create then {Obs} else {}),
          seq(|t.rows|, i requires 0 <= i < |t.rows| => AlertRow(lib, t.rows[i], threshold, create)))
  }

  // ---------------------------------------------------------------------
  // Stage 7: duplicates by `id_fatura`

  const DuplicateMessage := "Duplicata detectada (id_fatura repetida)"

  /** `duplicated(subset=["id_fatura"], keep=False)`: the key occurs more than once. */
  predicate Repeated(keys: seq<Value>, i: nat)
    requires i < |keys|
  {
    multiset(keys)[keys[i]] > 1
  }

  /** One row of the duplicate block: the `duplicata` flag is set to
      `repeated`, and a repeated row is noted. */
  function DuplicateRow(lib: Library, r: Row, repeated: bool, create: bool): (r': Row)
    requires repeated ==> create
    ensures r'.Keys == r.Keys + {Duplicata} + (if create then {Obs} else {})
    ensures r'[Duplicata] == Flag(repeated)
    ensures SameExcept(r, r', {Duplicata, Obs})
    ensures NoteText(lib, r') == if repeated then Appended(lib, r, DuplicateMessage) else NoteText(lib, r)
  {
    ColumnNamesDistinct();
    StageRow(lib, r, Duplicata, Flag(repeated), if repeated then Some(DuplicateMessage) else None, create)
  }

  /** Some `id_fatura` occurs more than once. */
  predicate AnyRepeated(keys: seq<Value>) {
    exists i :: 0 <= i < |keys| && Repeated(keys, i)
  }

  /** The duplicate block of `limpar_dados`: when the table has `id_fatura`,
      every row gets a `duplicata` flag, true exactly when its `id_fatura`
      occurs in another row, and flagged rows are noted. Missing ids compare
      equal, as they do in pandas' `duplicated`. */
  function MarkDuplicates(lib: Library, t: Table): (r: Table)
    requires WellFormed(t)
    ensures WellFormed(r) && |r.rows| == |t.rows|
    ensures IdFatura !in t.cols ==> r == t
    ensures IdFatura in t.cols ==>
              r.cols == t.cols + {Duplicata} + (if AnyRepeated(Column(t.rows, IdFatura)) then {Obs} else {})
    ensures IdFatura in t.cols ==> forall i :: 0 <= i < |t.rows| ==>
              r.rows[i] == DuplicateRow(lib, t.rows[i], Repeated(Column(t.rows, IdFatura), i), AnyRepeated(Column(t.rows, IdFatura)))
  {
    if IdFatura !in t.cols then t
    else
      var keys := Column(t.rows, IdFatura);
      var create := AnyRepeated(keys);
      Table(t.cols + {Duplicata} + (if create then {Obs} else {}),
            seq(|t.rows|, i requires 0 <= i < |t.rows| => DuplicateRow(lib, t.rows[i], Repeated(keys, i), create)))
  }

  /** `keep=False`: a row is flagged exactly when another row has the same
      `id_fatura`, and then it carries the duplicate note. */
  lemma MarkDuplicatesFlagsSharedIds(lib: Library, t: Table, i: int)
    requires WellFormed(t) && IdFatura in t.cols && 0 <= i < |t.rows|
    ensures MarkDuplicates(lib, t).rows[i][Duplicata] == Flag(true) <==>
              exists j :: 0 <= j < |t.rows| && j != i && t.rows[j][IdFatura] == t.rows[i][IdFatura]
    ensures MarkDuplicates(lib, t).rows[i][Duplicata] == Flag(true) ==>
              NoteText(lib, MarkDuplicates(lib, t).rows[i]) == Appended(lib, t.rows[i], DuplicateMessage)
  {
    var keys := Column(t.rows, IdFatura);
    var r := MarkDuplicates(lib, t).rows[i];
    assert r == DuplicateRow(lib, t.rows[i], Repeated(keys, i), AnyRepeated(keys));
    SharedIdIffRepeated(t, i);
  }

  /** In terms of the rows: the key of row `i` is repeated exactly when
      another row has the same `id_fatura`. */
  lemma SharedIdIffRepeated(t: Table, i: int)
    requires WellFormed(t) && IdFatura in t.cols && 0 <= i < |t.rows|
    ensures Repeated(Column(t.rows, IdFatura), i) <==>
              exists j :: 0 <= j < |t.rows| && j != i && t.rows[j][IdFatura] == t.rows[i][IdFatura]
  {
    var keys := Column(t.rows, IdFatura);
    Seqs.RepeatedIffOtherPosition(keys, i);
    if exists j :: 0 <= j < |t.rows| && j != i && t.rows[j][IdFatura] == t.rows[i][IdFatura] {
      var j :| 0 <= j < |t.rows| && j != i && t.rows[j][IdFatura] == t.rows[i][IdFatura];
      assert keys[j] == keys[i];
    }
    if exists j :: 0 <= j < |keys| && j != i && keys[j] == keys[i] {
      var j :| 0 <= j < |keys| && j != i && keys[j] == keys[i];
      assert t.rows[j][IdFatura] == t.rows[i][IdFatura];
    }
  }

  /** The duplicate mask computed the way pandas does it, by counting every
      key in one pass and flagging the keys counted more than once. */
  method DuplicateMask(keys: seq<Value>) returns (flags: seq<bool>)
    ensures |flags| == |keys|
    ensures forall i :: 0 <= i < |keys| ==>
              (flags[i] <==> exists j :: 0 <= j < |keys| && j != i && keys[j] == keys[i])
  {
    var counts: map<Value, nat> := map[];
    var n := 0;
    while n < |keys|
      invariant n <= |keys|
      invariant forall k :: k in counts <==> k in multiset(keys[..n])
      invariant forall k :: k in counts ==> counts[k] == multiset(keys[..n])[k]
    {
      assert keys[..n + 1] == keys[..n] + [keys[n]];
      var k := keys[n];
      counts := counts[k := if k in counts then counts[k] + 1 else 1];
      n := n + 1;
    }
    assert keys[..n] == keys;
    flags := [];
    while |flags| < |keys|
      invariant |flags| <= |keys|
      invariant forall i :: 0 <= i < |flags| ==> flags[i] == Repeated(keys, i)
    {
      var i := |flags|;
      assert keys[i] in multiset(keys);
      flags := flags + [counts[keys[i]] > 1];
    }
    forall i | 0 <= i < |keys|
      ensures flags[i] <==> exists j :: 0 <= j < |keys| && j != i && keys[j] == keys[i]
    {
      Seqs.RepeatedIffOtherPosition(keys, i);
    }
  }

  // ---------------------------------------------------------------------
  // Stage 8: ordering by `data_emissao`

  /** The issue date of a row; None for a missing (or absent) date. */
  function IssueDate(r: Row): Option<int> {
    if DataEmissao in r && r[DataEmissao].Date? then Some(r[DataEmissao].day) else None
  }

  /** Ascending issue dates, missing dates after all present ones. */
  predicate IssueDateOrder(a: Row, b: Row) {
    match (IssueDate(a), IssueDate(b))
    case (Some(x), Some(y)) => x <= y
    case (Some(_), None) => true
    case (None, Some(_)) => false
    case (None, None) => true
  }

  lemma IssueDateOrderIsTotalPreorder()
    ensures Seqs.TotalPreorder(IssueDateOrder)
  {
  }

  /** `sort_values(by="data_emissao", na_position="last")`. Pandas' sort is
      not stable; the model picks one admissible order (insertion sort) and
      promises only what every admissible order has. */
  function SortByIssueDate(t: Table): (r: Table)
    requires WellFormed(t)
    ensures WellFormed(r) && r.cols == t.cols && |r.rows| == |t.rows|
    ensures multiset(r.rows) == multiset(t.rows)
    ensures DataEmissao !in t.cols ==> r == t
    ensures DataEmissao in t.cols ==> forall i, j :: 0 <= i < j < |r.rows| ==>
              && (IssueDate(r.rows[i]).None? ==> IssueDate(r.rows[j]).None?)
              && (IssueDate(r.rows[i]).Some? && IssueDate(r.rows[j]).Some? ==>
                    IssueDate(r.rows[i]).value <= IssueDate(r.rows[j]).value)
  {
    if DataEmissao !in t.cols then t
    else
      IssueDateOrderIsTotalPreorder();
      var sorted := Seqs.Sort(t.rows, IssueDateOrder);
      assert forall i :: 0 <= i < |sorted| ==> sorted[i] in multiset(t.rows);
      Table(t.cols, sorted)
  }

  // ---------------------------------------------------------------------
  // Final steps

  /** Drops `_valor_calculado` when the table has it. */
  function DropCalculatedColumn(t: Table): (r: Table)
    requires WellFormed(t)
    ensures WellFormed(r) && |r.rows| == |t.rows|
    ensures r.cols == t.cols - {ValorCalculado}
    ensures forall i :: 0 <= i < |t.rows| ==> SameExcept(t.rows[i], r.rows[i], {ValorCalculado})
  {
    Table(t.cols - {ValorCalculado}, seq(|t.rows|, i requires 0 <= i < |t.rows| => t.rows[i] - {ValorCalculado}))
  }

  /** `fillna("").astype(str)` of one note cell. */
  function FinalNote(lib: Library, r: Row): string {
    if Obs in r && !r[Obs].Missing? then Render(lib, r[Obs]) else ""
  }

  /** `df["observacoes"] = df["observacoes"].fillna("").astype(str)`, with the
      column created (empty) when no stage ever wrote a note. */
  function FinalizeNotes(lib: Library, t: Table): (r: Table)
    requires WellFormed(t)
    ensures WellFormed(r) && |r.rows| == |t.rows|
    ensures r.cols == t.cols + {Obs}
    ensures forall i :: 0 <= i < |t.rows| ==> r.rows[i][Obs].Str?
    ensures forall i :: 0 <= i < |t.rows| ==> SameExcept(t.rows[i], r.rows[i], {Obs})
    ensures forall i :: 0 <= i < |t.rows| && HasNote(t.rows[i]) ==> r.rows[i][Obs] == Str(NoteText(lib, t.rows[i]))
    ensures forall i :: 0 <= i < |t.rows| && (Obs !in t.rows[i] || t.rows[i][Obs].Missing?) ==> r.rows[i][Obs] == Str("")
  {
    Table(t.cols + {Obs}, seq(|t.rows|, i requires 0 <= i < |t.rows| => t.rows[i][Obs := Str(FinalNote(lib, t.rows[i]))]))
  }

  /** The same line as written: indexing a column the table does not have
      raises a KeyError. */
  function FinalizeNotesAsWritten(lib: Library, t: Table): (r: Option<Table>)
    requires WellFormed(t)
    ensures r.None? <==> Obs !in t.cols
    ensures r.Some? ==> r.value == FinalizeNotes(lib, t)
  {
    if Obs !in t.cols then None else Some(FinalizeNotes(lib, t))
  }
}
