/** `limpar_dados` as a whole: the stages of the `Cleaner` module composed
    in the order the function runs them, and what the composition promises
    about the table it returns. */
module Pipeline {
  import opened Wrappers
  import opened Tables
  import opened Notes
  import opened Cleaner
  import Seqs

  // ---------------------------------------------------------------------
  // Facts a stage hands on to the next

  /** Cells outside `cs` of every row are the same in `a` and `b`. */
  ghost predicate RowsAgreeExcept(a: Table, b: Table, cs: set<string>) {
    |a.rows| == |b.rows| && forall i :: 0 <= i < |a.rows| ==> SameExcept(a.rows[i], b.rows[i], cs)
  }

  /** A column no stage in between writes keeps its cells, so it stays numeric. */
  lemma KeepsNumeric(a: Table, b: Table, c: string, cs: set<string>)
    requires RowsAgreeExcept(a, b, cs) && c !in cs && b.cols <= a.cols + cs
    requires WellFormed(a) && WellFormed(b)
    requires NumericColumn(a, c)
    ensures NumericColumn(b, c)
  {
    forall i | 0 <= i < |b.rows| && c in b.cols
      ensures Lookup(b.rows[i], c).Num?
    {
      SameExceptAgree(a.rows[i], b.rows[i], cs, c);
    }
  }

  /** The three amount columns hold numbers wherever the table has them. */
  predicate AmountsNumeric(t: Table) {
    NumericColumn(t, ValorBase) && NumericColumn(t, Imposto) && NumericColumn(t, ValorTotal)
  }

  lemma KeepsAmounts(a: Table, b: Table, cs: set<string>)
    requires RowsAgreeExcept(a, b, cs) && b.cols <= a.cols + cs
    requires ValorBase !in cs && Imposto !in cs && ValorTotal !in cs
    requires WellFormed(a) && WellFormed(b) && AmountsNumeric(a)
    ensures AmountsNumeric(b)
  {
    KeepsNumeric(a, b, ValorBase, cs);
    KeepsNumeric(a, b, Imposto, cs);
    KeepsNumeric(a, b, ValorTotal, cs);
  }

  lemma AmountAgrees(lib: Library, t: Table, c: string)
    requires WellFormed(t) && (c == ValorBase || c == Imposto || c == ValorTotal)
    ensures RowsAgreeExcept(t, CoerceAmount(lib, t, c), {c, Obs})
    ensures NumericColumn(CoerceAmount(lib, t, c), c)
  {
  }

  /** The amount loop: the three columns in order, each made numeric and
      left numeric by the later iterations. */
  function CoerceAmounts(lib: Library, t: Table): (r: Table)
    requires WellFormed(t)
    ensures WellFormed(r) && |r.rows| == |t.rows|
    ensures t.cols <= r.cols <= t.cols + {Obs}
    ensures AmountsNumeric(r)
  {
    ColumnNamesDistinct();
    var a := CoerceAmount(lib, t, ValorBase);
    var b := CoerceAmount(lib, a, Imposto);
    var c := CoerceAmount(lib, b, ValorTotal);
    AmountAgrees(lib, t, ValorBase);
    AmountAgrees(lib, a, Imposto);
    AmountAgrees(lib, b, ValorTotal);
    KeepsNumeric(a, b, ValorBase, {Imposto, Obs});
    KeepsNumeric(b, c, ValorBase, {ValorTotal, Obs});
    KeepsNumeric(b, c, Imposto, {ValorTotal, Obs});
    c
  }

  lemma DatesAgree(lib: Library, t: Table, c: string)
    requires WellFormed(t) && (c == DataEmissao || c == DataVencimento)
    ensures RowsAgreeExcept(t, CoerceDates(lib, t, c), {c, Obs})
  {
  }

  /** The date loop: `data_emissao`, then `data_vencimento`. Each date
      column present is parsed cell by cell, and nothing but the two date
      columns and the note changes. */
  function CoerceAllDates(lib: Library, t: Table): (r: Table)
    requires WellFormed(t)
    ensures WellFormed(r) && |r.rows| == |t.rows|
    ensures t.cols <= r.cols <= t.cols + {Obs}
    ensures RowsAgreeExcept(t, r, {DataEmissao, DataVencimento, Obs})
    ensures DataEmissao in t.cols ==> forall i :: 0 <= i < |t.rows| ==>
              r.rows[i][DataEmissao] == ParseDate(lib, t.rows[i][DataEmissao])
    ensures DataVencimento in t.cols ==> forall i :: 0 <= i < |t.rows| ==>
              r.rows[i][DataVencimento] == ParseDate(lib, t.rows[i][DataVencimento])
  {
    var a := CoerceDates(lib, t, DataEmissao);
    var b := CoerceDates(lib, a, DataVencimento);
    DatesAgree(lib, t, DataEmissao);
    DatesAgree(lib, a, DataVencimento);
    AgreeTransitive(t, a, b, {DataEmissao, Obs}, {DataVencimento, Obs});
    assert {DataEmissao, Obs} + {DataVencimento, Obs} == {DataEmissao, DataVencimento, Obs};
    BothDatesParsed(lib, t);
    b
  }

  /** Each date stage parses its own column and leaves the other one alone. */
  lemma BothDatesParsed(lib: Library, t: Table)
    requires WellFormed(t)
    ensures var b := CoerceDates(lib, CoerceDates(lib, t, DataEmissao), DataVencimento);
            && (DataEmissao in t.cols ==> forall i :: 0 <= i < |t.rows| ==>
                  b.rows[i][DataEmissao] == ParseDate(lib, t.rows[i][DataEmissao]))
            && (DataVencimento in t.cols ==> forall i :: 0 <= i < |t.rows| ==>
                  b.rows[i][DataVencimento] == ParseDate(lib, t.rows[i][DataVencimento]))
  {
    var a := CoerceDates(lib, t, DataEmissao);
    var b := CoerceDates(lib, a, DataVencimento);
    ColumnNamesDistinct();
    DatesAgree(lib, t, DataEmissao);
    DatesAgree(lib, a, DataVencimento);
    forall i | 0 <= i < |t.rows|
      ensures DataEmissao in t.cols ==> b.rows[i][DataEmissao] == ParseDate(lib, t.rows[i][DataEmissao])
      ensures DataVencimento in t.cols ==> b.rows[i][DataVencimento] == ParseDate(lib, t.rows[i][DataVencimento])
    {
      SameExceptAgree(a.rows[i], b.rows[i], {DataVencimento, Obs}, DataEmissao);
      SameExceptAgree(t.rows[i], a.rows[i], {DataEmissao, Obs}, DataVencimento);
    }
  }

  /** Two stages in a row change at most what either of them changes. */
  lemma AgreeTransitive(a: Table, b: Table, c: Table, cs: set<string>, ds: set<string>)
    requires RowsAgreeExcept(a, b, cs) && RowsAgreeExcept(b, c, ds)
    ensures RowsAgreeExcept(a, c, cs + ds)
  {
    forall i | 0 <= i < |a.rows|
      ensures SameExcept(a.rows[i], c.rows[i], cs + ds)
    {
      var x, y, z := a.rows[i], b.rows[i], c.rows[i];
      assert x - cs - ds == y - cs - ds;
      assert y - ds - cs == z - ds - cs;
      assert x - (cs + ds) == x - cs - ds;
      assert z - (cs + ds) == z - ds - cs;
    }
  }

  lemma TextAgrees(lib: Library, t: Table, f: TextField)
    requires WellFormed(t)
    ensures RowsAgreeExcept(t, NormalizeText(lib, t, f), {FieldColumn(f), Obs})
  {
  }

  /** The two text blocks: `status`, then `metodo_pagamento`. Nothing but
      the two text columns and the note changes; `BothTextsStandardized`
      says what the text columns become. */
  function NormalizeTexts(lib: Library, t: Table): (r: Table)
    requires WellFormed(t)
    ensures WellFormed(r) && |r.rows| == |t.rows|
    ensures t.cols <= r.cols <= t.cols + {Obs}
    ensures RowsAgreeExcept(t, r, {Status, MetodoPagamento, Obs})
  {
    var a := NormalizeText(lib, t, StatusField);
    var b := NormalizeText(lib, a, PaymentMethodField);
    TextAgrees(lib, t, StatusField);
    TextAgrees(lib, a, PaymentMethodField);
    AgreeTransitive(t, a, b, {Status, Obs}, {MetodoPagamento, Obs});
    assert {Status, Obs} + {MetodoPagamento, Obs} == {Status, MetodoPagamento, Obs};
    b
  }

  /** After both text blocks, each text column present holds, row by row,
      its stripped and title-cased text: each stage standardises its own
      column and leaves the other one alone. */
  lemma BothTextsStandardized(lib: Library, t: Table)
    requires WellFormed(t)
    ensures var b := NormalizeTexts(lib, t);
            && (Status in t.cols ==> forall i :: 0 <= i < |t.rows| ==>
                  b.rows[i][Status] == Str(Text.Title(Stripped(lib, t.rows[i][Status]))))
            && (MetodoPagamento in t.cols ==> forall i :: 0 <= i < |t.rows| ==>
                  b.rows[i][MetodoPagamento] == Str(Text.Title(Stripped(lib, t.rows[i][MetodoPagamento]))))
  {
    var a := NormalizeText(lib, t, StatusField);
    var b := NormalizeText(lib, a, PaymentMethodField);
    ColumnNamesDistinct();
    TextAgrees(lib, t, StatusField);
    TextAgrees(lib, a, PaymentMethodField);
    forall i | 0 <= i < |t.rows|
      ensures Status in t.cols ==> b.rows[i][Status] == Str(Text.Title(Stripped(lib, t.rows[i][Status])))
      ensures MetodoPagamento in t.cols ==>
                b.rows[i][MetodoPagamento] == Str(Text.Title(Stripped(lib, t.rows[i][MetodoPagamento])))
    {
      SameExceptAgree(a.rows[i], b.rows[i], {MetodoPagamento, Obs}, Status);
      SameExceptAgree(t.rows[i], a.rows[i], {Status, Obs}, MetodoPagamento);
    }
  }

  lemma TotalsAgree(lib: Library, t: Table)
    requires WellFormed(t) && NumericColumn(t, ValorBase) && NumericColumn(t, Imposto)
    ensures RowsAgreeExcept(t, CheckTotals(lib, t), {Obs})
  {
  }

  lemma AlertsAgree(lib: Library, t: Table, threshold: real)
    requires WellFormed(t) && forall i :: 0 <= i < |t.rows| ==> AlertReadable(t.rows[i])
    ensures RowsAgreeExcept(t, ClassifyAlerts(lib, t, threshold), {Alerta, Obs})
  {
  }

  lemma DuplicatesAgree(lib: Library, t: Table)
    requires WellFormed(t)
    ensures RowsAgreeExcept(t, MarkDuplicates(lib, t), {Duplicata, Obs})
  {
  }

  /** A numeric `valor_total` column can be read by `alerta_row`. */
  lemma NumericIsReadable(t: Table)
    requires WellFormed(t) && NumericColumn(t, ValorTotal)
    ensures forall i :: 0 <= i < |t.rows| ==> AlertReadable(t.rows[i])
  {
  }

  // ---------------------------------------------------------------------
  // Row properties that survive the later stages and the sort

  /** `alerta` holds the label `alerta_row` gives the row's own `valor_total`. */
  predicate AlertConsistent(r: Row, threshold: real) {
    AlertReadable(r) && Alerta in r && r[Alerta] == Str(Label(AlertOf(r, threshold)))
  }

  /** `duplicata` says whether the row's `id_fatura` occurs more than once
      among `ids`, the `id_fatura` column of the whole table. */
  predicate DuplicateConsistent(r: Row, ids: multiset<Value>) {
    Duplicata in r && r[Duplicata] == Flag(ids[Lookup(r, IdFatura)] > 1)
  }

  lemma AlertConsistentKept(x: Row, y: Row, cs: set<string>, threshold: real)
    requires SameExcept(x, y, cs) && Alerta !in cs && ValorTotal !in cs
    requires AlertConsistent(x, threshold)
    ensures AlertConsistent(y, threshold)
  {
    SameExceptAgree(x, y, cs, Alerta);
    SameExceptAgree(x, y, cs, ValorTotal);
  }

  lemma DuplicateConsistentKept(x: Row, y: Row, cs: set<string>, ids: multiset<Value>)
    requires SameExcept(x, y, cs) && Duplicata !in cs && IdFatura !in cs
    requires DuplicateConsistent(x, ids)
    ensures DuplicateConsistent(y, ids)
  {
    SameExceptAgree(x, y, cs, Duplicata);
    SameExceptAgree(x, y, cs, IdFatura);
  }

  /** Rows that agree on `id_fatura` have the same `id_fatura` column. */
  lemma ColumnKept(a: Table, b: Table, cs: set<string>, c: string)
    requires RowsAgreeExcept(a, b, cs) && c !in cs
    ensures Column(a.rows, c) == Column(b.rows, c)
  {
    forall i | 0 <= i < |a.rows|
      ensures Lookup(a.rows[i], c) == Lookup(b.rows[i], c)
    {
      SameExceptAgree(a.rows[i], b.rows[i], cs, c);
    }
  }

  // ---------------------------------------------------------------------
  // The pipeline

  /** Stages 1 to 5: empty rows dropped, dates and amounts coerced, text
      standardised and totals checked. */
  function Standardize(lib: Library, t: Table): (r: Table)
    requires WellFormed(t)
    ensures WellFormed(r) && |r.rows| == |DropEmptyRows(t).rows|
    ensures t.cols <= r.cols <= t.cols + {Obs}
    ensures AmountsNumeric(r)
  {
    var t1 := DropEmptyRows(t);
    var t2 := CoerceAllDates(lib, t1);
    var t3 := CoerceAmounts(lib, t2);
    var t4 := NormalizeTexts(lib, t3);
    TextsKeepAmounts(lib, t3);
    TotalsKeepAmounts(lib, t4);
    CheckTotals(lib, t4)
  }

  lemma TextsKeepAmounts(lib: Library, t: Table)
    requires WellFormed(t) && AmountsNumeric(t)
    ensures AmountsNumeric(NormalizeTexts(lib, t))
  {
    ColumnNamesDistinct();
    KeepsAmounts(t, NormalizeTexts(lib, t), {Status, MetodoPagamento, Obs});
  }

  lemma TotalsKeepAmounts(lib: Library, t: Table)
    requires WellFormed(t) && AmountsNumeric(t)
    ensures var r := CheckTotals(lib, t);
            AmountsNumeric(r) && t.cols <= r.cols <= t.cols + {Obs}
  {
    ColumnNamesDistinct();
    TotalsAgree(lib, t);
    KeepsAmounts(t, CheckTotals(lib, t), {Obs});
  }

  /** Right after the alert block every row's `alerta` matches its own
      `valor_total`, because the block writes only `alerta` and the note. */
  lemma AlertsConsistent(lib: Library, t: Table, threshold: real)
    requires WellFormed(t) && forall i :: 0 <= i < |t.rows| ==> AlertReadable(t.rows[i])
    ensures forall i :: 0 <= i < |t.rows| ==> AlertConsistent(ClassifyAlerts(lib, t, threshold).rows[i], threshold)
  {
    var r := ClassifyAlerts(lib, t, threshold);
    forall i | 0 <= i < |t.rows|
      ensures AlertConsistent(r.rows[i], threshold)
    {
      ColumnNamesDistinct();
      SameExceptAgree(t.rows[i], r.rows[i], {Alerta, Obs}, ValorTotal);
    }
  }

  /** Right after the duplicate block every row's flag says whether its
      `id_fatura` occurs more than once in the table's `id_fatura` column. */
  lemma DuplicatesConsistent(lib: Library, t: Table)
    requires WellFormed(t) && IdFatura in t.cols
    ensures var r := MarkDuplicates(lib, t);
            forall i :: 0 <= i < |r.rows| ==> DuplicateConsistent(r.rows[i], multiset(Column(r.rows, IdFatura)))
  {
    var r := MarkDuplicates(lib, t);
    ColumnNamesDistinct();
    DuplicatesAgree(lib, t);
    ColumnKept(t, r, {Duplicata, Obs}, IdFatura);
  }

  /** Stages 6 and 7: the `alerta` column and the duplicate flags. */
  function FlagRows(lib: Library, t: Table, threshold: real): (r: Table)
    requires WellFormed(t) && AmountsNumeric(t)
    ensures WellFormed(r) && |r.rows| == |t.rows|
    ensures var added := {Alerta} + (if IdFatura in t.cols then {Duplicata} else {});
            t.cols + added <= r.cols <= t.cols + added + {Obs}
    ensures AmountsNumeric(r)
    ensures forall i :: 0 <= i < |r.rows| ==> AlertConsistent(r.rows[i], threshold)
    ensures IdFatura in t.cols ==>
              forall i :: 0 <= i < |r.rows| ==> DuplicateConsistent(r.rows[i], multiset(Column(r.rows, IdFatura)))
  {
    ColumnNamesDistinct();
    NumericIsReadable(t);
    var t6 := ClassifyAlerts(lib, t, threshold);
    AlertsAgree(lib, t, threshold);
    AlertsConsistent(lib, t, threshold);
    KeepsAmounts(t, t6, {Alerta, Obs});
    var t7 := MarkDuplicates(lib, t6);
    DuplicatesAgree(lib, t6);
    KeepsAmounts(t6, t7, {Duplicata, Obs});
    AlertsKept(t6, t7, {Duplicata, Obs}, threshold);
    if IdFatura in t.cols then
      DuplicatesConsistent(lib, t6);
      t7
    else
      t7
  }

  lemma AlertsKept(a: Table, b: Table, cs: set<string>, threshold: real)
    requires RowsAgreeExcept(a, b, cs) && Alerta !in cs && ValorTotal !in cs
    requires forall i :: 0 <= i < |a.rows| ==> AlertConsistent(a.rows[i], threshold)
    ensures forall i :: 0 <= i < |b.rows| ==> AlertConsistent(b.rows[i], threshold)
  {
    forall i | 0 <= i < |b.rows|
      ensures AlertConsistent(b.rows[i], threshold)
    {
      AlertConsistentKept(a.rows[i], b.rows[i], cs, threshold);
    }
  }

  /** Every row-wise property of the rows survives a reordering. */
  lemma PermutationKeepsRows(a: seq<Row>, b: seq<Row>, p: Row -> bool)
    requires multiset(a) == multiset(b)
    requires forall i :: 0 <= i < |a| ==> p(a[i])
    ensures forall i :: 0 <= i < |b| ==> p(b[i])
  {
    forall i | 0 <= i < |b|
      ensures p(b[i])
    {
      assert b[i] in multiset(a);
      var k :| 0 <= k < |a| && a[k] == b[i];
    }
  }

  /** Non-missing issue dates ascend and every missing one comes after them. */
  predicate NullsLastAscending(rows: seq<Row>) {
    forall i, j :: 0 <= i < j < |rows| ==> IssueDateOrder(rows[i], rows[j])
  }

  /** The columns the pipeline adds: `alerta` always, `duplicata` when the
      table has `id_fatura`. */
  function AddedColumns(cols: set<string>): set<string> {
    {Alerta} + (if IdFatura in cols then {Duplicata} else {})
  }

  /** Stages 1 to 8: everything `limpar_dados` does before dropping the
      helper column and finalising the notes. */
  function Prepare(lib: Library, t: Table, threshold: real): (r: Table)
    requires WellFormed(t)
    ensures WellFormed(r) && |r.rows| == |DropEmptyRows(t).rows|
    ensures t.cols + AddedColumns(t.cols) <= r.cols <= t.cols + AddedColumns(t.cols) + {Obs}
  {
    var s := Standardize(lib, t);
    AddedColumnsStable(t.cols, s.cols);
    SortByIssueDate(FlagRows(lib, s, threshold))
  }

  /** Adding the notes column does not change which flag columns are added. */
  lemma AddedColumnsStable(a: set<string>, b: set<string>)
    requires a <= b <= a + {Obs}
    ensures AddedColumns(b) == AddedColumns(a)
  {
    ColumnNamesDistinct();
  }

  /** What the first eight stages promise about every row of their result. */
  lemma PrepareGuarantees(lib: Library, t: Table, threshold: real)
    requires WellFormed(t)
    ensures var r := Prepare(lib, t, threshold);
            && AmountsNumeric(r)
            && (forall i :: 0 <= i < |r.rows| ==> AlertConsistent(r.rows[i], threshold))
            && (IdFatura in t.cols ==>
                  forall i :: 0 <= i < |r.rows| ==> DuplicateConsistent(r.rows[i], multiset(Column(r.rows, IdFatura))))
            && (DataEmissao in t.cols ==> NullsLastAscending(r.rows))
  {
    var s := Standardize(lib, t);
    var f := FlagRows(lib, s, threshold);
    var r := SortByIssueDate(f);
    assert Prepare(lib, t, threshold) == r;
    SortKeeps(f, r, threshold);
  }

  /** A numeric column stays numeric when the rows are reordered. */
  lemma NumericPermuted(f: Table, r: Table, c: string)
    requires r.cols == f.cols && multiset(r.rows) == multiset(f.rows) && NumericColumn(f, c)
    ensures NumericColumn(r, c)
  {
    if c in f.cols {
      PermutationKeepsRows(f.rows, r.rows, x => Lookup(x, c).Num?);
    }
  }

  /** Reordering the rows keeps every row-wise promise, and the multiset of
      ids the duplicate flags refer to. */
  lemma SortKeeps(f: Table, r: Table, threshold: real)
    requires WellFormed(f) && WellFormed(r) && r.cols == f.cols && multiset(r.rows) == multiset(f.rows)
    requires AmountsNumeric(f)
    requires forall i :: 0 <= i < |f.rows| ==> AlertConsistent(f.rows[i], threshold)
    ensures AmountsNumeric(r)
    ensures forall i :: 0 <= i < |r.rows| ==> AlertConsistent(r.rows[i], threshold)
    ensures (forall i :: 0 <= i < |f.rows| ==> DuplicateConsistent(f.rows[i], multiset(Column(f.rows, IdFatura)))) ==>
              forall i :: 0 <= i < |r.rows| ==> DuplicateConsistent(r.rows[i], multiset(Column(r.rows, IdFatura)))
  {
    PermutationKeepsRows(f.rows, r.rows, x => AlertConsistent(x, threshold));
    NumericPermuted(f, r, ValorBase);
    NumericPermuted(f, r, Imposto);
    NumericPermuted(f, r, ValorTotal);
    ColumnPermutation(f.rows, r.rows, IdFatura);
    if forall i :: 0 <= i < |f.rows| ==> DuplicateConsistent(f.rows[i], multiset(Column(f.rows, IdFatura))) {
      PermutationKeepsRows(f.rows, r.rows, x => DuplicateConsistent(x, multiset(Column(f.rows, IdFatura))));
    }
  }

  /** `limpar_dados`, with the note column created when no stage wrote to
      it (`CleanAsWritten` keeps line 157 as written). */
  function Clean(lib: Library, t: Table, threshold: real := DefaultThreshold): (r: Table)
    requires WellFormed(t)
    ensures WellFormed(r) && |r.rows| == |DropEmptyRows(t).rows|
    ensures r.cols == (t.cols - {ValorCalculado}) + AddedColumns(t.cols) + {Obs}
    ensures forall i :: 0 <= i < |r.rows| ==> r.rows[i][Obs].Str?
  {
    var p := Prepare(lib, t, threshold);
    var d := DropCalculatedColumn(p);
    FinalColumns(t.cols, p.cols);
    FinalizeNotes(lib, d)
  }

  /** A column the pipeline neither adds nor drops is in the result exactly
      when it is in the input. */
  lemma KeptColumn(cols: set<string>, c: string)
    requires c in {IdFatura, DataEmissao, DataVencimento, ValorBase, Imposto, ValorTotal, Status, MetodoPagamento}
    ensures c in (cols - {ValorCalculado}) + AddedColumns(cols) + {Obs} <==> c in cols
  {
    ColumnNamesDistinct();
  }

  /** Column bookkeeping of the last two steps. */
  lemma FinalColumns(cols: set<string>, prepared: set<string>)
    requires cols + AddedColumns(cols) <= prepared <= cols + AddedColumns(cols) + {Obs}
    ensures (prepared - {ValorCalculado}) + {Obs} == (cols - {ValorCalculado}) + AddedColumns(cols) + {Obs}
  {
    ColumnNamesDistinct();
  }

  /** The returned table has every amount numeric, an `alerta` matching
      each row's own `valor_total`, a `duplicata` flag telling whether the
      row's id occurs more than once, and rows in issue-date order with
      missing dates last. */
  lemma CleanGuarantees(lib: Library, t: Table, threshold: real)
    requires WellFormed(t)
    ensures var r := Clean(lib, t, threshold);
            && AmountsNumeric(r)
            && (forall i :: 0 <= i < |r.rows| ==> AlertConsistent(r.rows[i], threshold))
            && (IdFatura in t.cols ==>
                  forall i :: 0 <= i < |r.rows| ==> DuplicateConsistent(r.rows[i], multiset(Column(r.rows, IdFatura))))
            && (DataEmissao in t.cols ==> NullsLastAscending(r.rows))
  {
    ColumnNamesDistinct();
    var p := Prepare(lib, t, threshold);
    PrepareGuarantees(lib, t, threshold);
    var d := DropCalculatedColumn(p);
    var r := FinalizeNotes(lib, d);
    assert Clean(lib, t, threshold) == r;
    AgreeTransitive(p, d, r, {ValorCalculado}, {Obs});
    assert {ValorCalculado} + {Obs} == {ValorCalculado, Obs};
    FinalStepsKeep(p, r, {ValorCalculado, Obs}, threshold);
  }

  /** The last two steps touch neither the amounts, `alerta`, `duplicata`,
      `id_fatura` nor `data_emissao`, so what `Prepare` promises still holds. */
  lemma FinalStepsKeep(p: Table, r: Table, cs: set<string>, threshold: real)
    requires cs == {ValorCalculado, Obs}
    requires WellFormed(p) && WellFormed(r) && RowsAgreeExcept(p, r, cs) && r.cols <= p.cols + cs
    requires AmountsNumeric(p)
    requires forall i :: 0 <= i < |p.rows| ==> AlertConsistent(p.rows[i], threshold)
    ensures AmountsNumeric(r)
    ensures forall i :: 0 <= i < |r.rows| ==> AlertConsistent(r.rows[i], threshold)
    ensures IdFatura in p.cols && (forall i :: 0 <= i < |p.rows| ==> DuplicateConsistent(p.rows[i], multiset(Column(p.rows, IdFatura)))) ==>
              forall i :: 0 <= i < |r.rows| ==> DuplicateConsistent(r.rows[i], multiset(Column(r.rows, IdFatura)))
    ensures NullsLastAscending(p.rows) ==> NullsLastAscending(r.rows)
  {
    ColumnNamesDistinct();
    KeepsAmounts(p, r, cs);
    AlertsKept(p, r, cs, threshold);
    ColumnKept(p, r, cs, IdFatura);
    forall i | 0 <= i < |r.rows|
      ensures IssueDate(r.rows[i]) == IssueDate(p.rows[i])
      ensures DuplicateConsistent(p.rows[i], multiset(Column(p.rows, IdFatura))) ==>
                DuplicateConsistent(r.rows[i], multiset(Column(r.rows, IdFatura)))
    {
      SameExceptAgree(p.rows[i], r.rows[i], cs, DataEmissao);
      if DuplicateConsistent(p.rows[i], multiset(Column(p.rows, IdFatura))) {
        DuplicateConsistentKept(p.rows[i], r.rows[i], cs, multiset(Column(p.rows, IdFatura)));
      }
    }
  }

  // ---------------------------------------------------------------------
  // The promises of `limpar_dados`, spelled out on the returned table

  /** Flags consistent with the table's own id column mark exactly the
      rows whose `id_fatura` occurs in another row. */
  lemma ConsistentFlagsMarkSharedIds(rows: seq<Row>, i: int)
    requires forall k :: 0 <= k < |rows| ==> IdFatura in rows[k] && Duplicata in rows[k]
    requires forall k :: 0 <= k < |rows| ==> DuplicateConsistent(rows[k], multiset(Column(rows, IdFatura)))
    requires 0 <= i < |rows|
    ensures rows[i][Duplicata] == Flag(true) <==>
              exists j :: 0 <= j < |rows| && j != i && rows[j][IdFatura] == rows[i][IdFatura]
  {
    var ids := Column(rows, IdFatura);
    Seqs.RepeatedIffOtherPosition(ids, i);
    assert DuplicateConsistent(rows[i], multiset(ids));
    if exists j :: 0 <= j < |rows| && j != i && rows[j][IdFatura] == rows[i][IdFatura] {
      var j :| 0 <= j < |rows| && j != i && rows[j][IdFatura] == rows[i][IdFatura];
      assert ids[j] == ids[i];
    }
    if exists j :: 0 <= j < |ids| && j != i && ids[j] == ids[i] {
      var j :| 0 <= j < |ids| && j != i && ids[j] == ids[i];
      assert rows[j][IdFatura] == rows[i][IdFatura];
    }
  }

  /** `keep=False` survives the sort: a returned row is flagged exactly when
      another returned row has the same `id_fatura`. */
  lemma CleanFlagsSharedIds(lib: Library, t: Table, threshold: real, i: int)
    requires WellFormed(t) && IdFatura in t.cols
    requires 0 <= i < |Clean(lib, t, threshold).rows|
    ensures var r := Clean(lib, t, threshold);
            r.rows[i][Duplicata] == Flag(true) <==>
              exists j :: 0 <= j < |r.rows| && j != i && r.rows[j][IdFatura] == r.rows[i][IdFatura]
  {
    var r := Clean(lib, t, threshold);
    CleanGuarantees(lib, t, threshold);
    assert IdFatura in r.cols by {
      ColumnNamesDistinct();
    }
    ConsistentFlagsMarkSharedIds(r.rows, i);
  }

  /** What a consistent `alerta` says about a row with a numeric (or
      absent) `valor_total`. */
  lemma ConsistentAlertMeaning(r: Row, threshold: real)
    requires AlertConsistent(r, threshold)
    requires ValorTotal in r ==> r[ValorTotal].Num?
    ensures ValorTotal in r ==> r[Alerta] == Str(Label(Classify(Some(r[ValorTotal].x), threshold)))
    ensures ValorTotal !in r ==> r[Alerta] == Str(Label(Zero))
    ensures r[Alerta] != Str(Label(InvalidValue))
  {
    LabelInjective(AlertOf(r, threshold), InvalidValue);
  }

  /** Every returned `alerta` is the first matching rule of `alerta_row`
      applied to the returned `valor_total`, which is a number; so
      "Valor inválido" never occurs, and a table without `valor_total`
      reads 0.0 and gets "Zero" everywhere. */
  lemma CleanAlerts(lib: Library, t: Table, threshold: real, i: int)
    requires WellFormed(t)
    requires 0 <= i < |Clean(lib, t, threshold).rows|
    ensures var r := Clean(lib, t, threshold).rows[i];
            && (ValorTotal in t.cols ==>
                  Lookup(r, ValorTotal).Num? &&
                  Lookup(r, Alerta) == Str(Label(Classify(Some(Lookup(r, ValorTotal).x), threshold))))
            && (ValorTotal !in t.cols ==> Lookup(r, Alerta) == Str(Label(Zero)))
            && Lookup(r, Alerta) != Str(Label(InvalidValue))
  {
    var r := Clean(lib, t, threshold);
    CleanGuarantees(lib, t, threshold);
    KeptColumn(t.cols, ValorTotal);
    assert ValorTotal in r.rows[i] ==> Lookup(r.rows[i], ValorTotal).Num?;
    ConsistentAlertMeaning(r.rows[i], threshold);
  }

  /** `limpar_dados` with line 157 as written: it indexes `observacoes`,
      which raises a KeyError when the input had no such column and no stage
      wrote a note; None stands for the exception. The stages before it use
      the corrected note helper `AddNote`. */
  function CleanAsWritten(lib: Library, t: Table, threshold: real := DefaultThreshold): (r: Option<Table>)
    requires WellFormed(t)
    ensures r.None? <==> Obs !in Prepare(lib, t, threshold).cols
    ensures r.Some? ==> r.value == Clean(lib, t, threshold)
  {
    ColumnNamesDistinct();
    FinalizeNotesAsWritten(lib, DropCalculatedColumn(Prepare(lib, t, threshold)))
  }

  /** The single row of `SpotlessInvoice`. */
  function SpotlessRow(): (row: Row)
    ensures row.Keys == {IdFatura, IdCliente, NomeCliente, DataEmissao, DataVencimento, ValorBase, Imposto, ValorTotal}
    ensures row[ValorBase] == Num(100.0) && row[Imposto] == Num(10.0) && row[ValorTotal] == Num(110.0)
  {
    map[IdFatura := Str("F1"), IdCliente := Str("C1"), NomeCliente := Str("Cliente A"),
        DataEmissao := Date(1), DataVencimento := Date(31),
        ValorBase := Num(100.0), Imposto := Num(10.0), ValorTotal := Num(110.0)]
  }

  /** An invoice no stage has anything to note about: valid dates, numeric
      amounts whose rounded sum is the stored total, a total between zero
      and the threshold, a single id, and no `observacoes` column. It has
      every required column, so the schema check accepts it. */
  function SpotlessInvoice(): (t: Table)
    ensures WellFormed(t) && Obs !in t.cols
    ensures ValidateColumns(t)
  {
    ColumnNamesDistinct();
    Table(SpotlessRow().Keys, [SpotlessRow()])
  }

  lemma SpotlessKeepsRows(lib: Library)
    ensures DropEmptyRows(SpotlessInvoice()) == SpotlessInvoice()
  {
    assert SpotlessRow()[IdFatura] == Str("F1");
    DropEmptyRowsKeepsFullRows(SpotlessInvoice());
  }

  lemma SpotlessKeepsDates(lib: Library)
    ensures CoerceAllDates(lib, SpotlessInvoice()) == SpotlessInvoice()
  {
    var t := SpotlessInvoice();
    CoerceDatesKeepsDates(lib, t, DataEmissao);
    CoerceDatesKeepsDates(lib, t, DataVencimento);
  }

  lemma SpotlessKeepsAmounts(lib: Library)
    ensures CoerceAmounts(lib, SpotlessInvoice()) == SpotlessInvoice()
  {
    var t := SpotlessInvoice();
    CoerceAmountKeepsNumbers(lib, t, ValorBase);
    CoerceAmountKeepsNumbers(lib, t, Imposto);
    CoerceAmountKeepsNumbers(lib, t, ValorTotal);
  }

  lemma SpotlessKeepsText(lib: Library)
    ensures NormalizeTexts(lib, SpotlessInvoice()) == SpotlessInvoice()
  {
    var t := SpotlessInvoice();
    assert FieldColumn(StatusField) !in t.cols && FieldColumn(PaymentMethodField) !in t.cols by {
      ColumnNamesDistinct();
    }
    assert NormalizeText(lib, t, StatusField) == t;
  }

  lemma SpotlessKeepsTotals(lib: Library)
    requires lib.round2(100.0 + 10.0) == 110.0
    ensures NumericColumn(SpotlessInvoice(), ValorBase) && NumericColumn(SpotlessInvoice(), Imposto)
    ensures CheckTotals(lib, SpotlessInvoice()) == SpotlessInvoice()
  {
    CheckTotalsQuietWhenConsistent(lib, SpotlessInvoice());
  }

  /** The first five stages leave the spotless invoice as it is. */
  lemma SpotlessIsStandard(lib: Library)
    requires lib.round2(100.0 + 10.0) == 110.0
    ensures Standardize(lib, SpotlessInvoice()) == SpotlessInvoice()
  {
    SpotlessKeepsRows(lib);
    SpotlessKeepsDates(lib);
    SpotlessKeepsAmounts(lib);
    SpotlessKeepsText(lib);
    SpotlessKeepsTotals(lib);
  }

  /** The spotless invoice raises no alert, so the alert block writes no note. */
  lemma SpotlessRaisesNoAlert(lib: Library)
    ensures AlertReadable(SpotlessRow())
    ensures Obs !in ClassifyAlerts(lib, SpotlessInvoice(), DefaultThreshold).cols
  {
    var t := SpotlessInvoice();
    assert t.rows[0] == SpotlessRow();
    assert AlertOf(SpotlessRow(), DefaultThreshold) == Ok;
    assert !AnyAlertNote(lib, t, DefaultThreshold);
  }

  /** A single id is never repeated. */
  lemma SingleKeyNotRepeated(keys: seq<Value>)
    requires |keys| == 1
    ensures !AnyRepeated(keys)
  {
    assert multiset(keys) == multiset{keys[0]};
  }

  /** The note column the first eight stages end with is the one the
      flagging stages end with; the sort does not touch columns. */
  lemma PrepareColumns(lib: Library, t: Table, threshold: real)
    requires WellFormed(t)
    ensures Prepare(lib, t, threshold).cols == FlagRows(lib, Standardize(lib, t), threshold).cols
  {
  }

  /** Neither the alert block nor the duplicate block notes the spotless
      invoice. */
  lemma SpotlessIsNotFlagged(lib: Library)
    ensures AmountsNumeric(SpotlessInvoice())
    ensures Obs !in FlagRows(lib, SpotlessInvoice(), DefaultThreshold).cols
  {
    var t := SpotlessInvoice();
    SpotlessAmountsNumeric();
    SpotlessRaisesNoAlert(lib);
    var a := ClassifyAlerts(lib, t, DefaultThreshold);
    SingleKeyNotRepeated(Column(a.rows, IdFatura));
  }

  /** The spotless invoice's amounts are numbers. */
  lemma SpotlessAmountsNumeric()
    ensures AmountsNumeric(SpotlessInvoice())
  {
    var t := SpotlessInvoice();
    assert t.rows[0] == SpotlessRow();
    assert Lookup(t.rows[0], ValorBase).Num? && Lookup(t.rows[0], Imposto).Num? && Lookup(t.rows[0], ValorTotal).Num?;
  }

  /** No stage notes the spotless invoice, so the note column is never
      created. */
  lemma SpotlessIsNeverNoted(lib: Library)
    requires lib.round2(100.0 + 10.0) == 110.0
    ensures Obs !in Prepare(lib, SpotlessInvoice(), DefaultThreshold).cols
  {
    PrepareColumns(lib, SpotlessInvoice(), DefaultThreshold);
    SpotlessIsStandard(lib);
    SpotlessIsNotFlagged(lib);
  }

  /** When no stage wrote a note, the corrected last step gives every row
      an empty note. */
  lemma UnnotedCleanIsEmpty(lib: Library, t: Table, threshold: real)
    requires WellFormed(t) && Obs !in Prepare(lib, t, threshold).cols
    ensures forall i :: 0 <= i < |Clean(lib, t, threshold).rows| ==> Clean(lib, t, threshold).rows[i][Obs] == Str("")
  {
    var d := DropCalculatedColumn(Prepare(lib, t, threshold));
    assert Clean(lib, t, threshold) == FinalizeNotes(lib, d);
    UnnotedFinalIsEmpty(lib, d);
  }

  lemma UnnotedFinalIsEmpty(lib: Library, t: Table)
    requires WellFormed(t) && Obs !in t.cols
    ensures forall i :: 0 <= i < |FinalizeNotes(lib, t).rows| ==> FinalizeNotes(lib, t).rows[i][Obs] == Str("")
  {
    assert forall i :: 0 <= i < |t.rows| ==> Obs !in t.rows[i];
  }

  /** The KeyError of line 157: on an input no stage notes, the code as
      written fails where the corrected pipeline returns an empty note. */
  lemma SpotlessInvoiceRaisesKeyError(lib: Library)
    requires lib.round2(100.0 + 10.0) == 110.0
    ensures CleanAsWritten(lib, SpotlessInvoice()).None?
    ensures |Clean(lib, SpotlessInvoice()).rows| == 1
    ensures Clean(lib, SpotlessInvoice()).rows[0][Obs] == Str("")
  {
    SpotlessIsNeverNoted(lib);
    SpotlessKeepsRows(lib);
    UnnotedCleanIsEmpty(lib, SpotlessInvoice(), DefaultThreshold);
  }
}
