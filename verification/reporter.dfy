/** The two sheets `gerar_relatorio` derives from the cleaned table: the
    alerts view and the per-client summary. Writing the workbook is not
    modelled. */
module Reporter {
  import opened Wrappers
  import opened Tables
  import opened Cleaner
  import Seqs

  // ---------------------------------------------------------------------
  // The `alertas` sheet

  /** `alerta != "OK"` on one row; a missing cell compares unequal, so it
      counts as raised. */
  predicate Raised(r: Row) {
    Lookup(r, Alerta) != Str("OK")
  }

  /** `df[df["alerta"] != "OK"]`, or an empty frame without columns when the
      table has no `alerta` column. */
  function AlertsView(t: Table): (r: Table)
    requires WellFormed(t)
    ensures WellFormed(r)
    ensures Alerta !in t.cols ==> r == Table({}, [])
    ensures Alerta in t.cols ==> r.cols == t.cols
    ensures Seqs.IsSubsequence(r.rows, t.rows)
    ensures Alerta in t.cols ==>
              forall x :: multiset(r.rows)[x] == (if Raised(x) then multiset(t.rows)[x] else 0)
  {
    if Alerta !in t.cols then Table({}, [])
    else
      var rows := Seqs.Filter(t.rows, Raised);
      assert forall i :: 0 <= i < |rows| ==> rows[i] in multiset(t.rows);
      Table(t.cols, rows)
  }

  /** On a table every row of which is raised, the view is the table itself. */
  lemma AllRaisedViewIsWhole(t: Table)
    requires WellFormed(t) && Alerta in t.cols
    requires forall i :: 0 <= i < |t.rows| ==> Raised(t.rows[i])
    ensures AlertsView(t) == t
  {
    Seqs.FilterKeepsAll(t.rows, Raised);
  }

  /** A row of the cleaned table is in the alerts view exactly when its own
      `valor_total` raises an alert. */
  lemma CleanedRowRaised(a: Alert, r: Row)
    requires Lookup(r, Alerta) == Str(Label(a))
    ensures Raised(r) <==> a != Ok
  {
    LabelInjective(a, Ok);
  }

  // ---------------------------------------------------------------------
  // The `resumo_cliente` sheet

  /** One row of the summary: `total_faturado`, `qtd_documentos` and
      `media_fatura` of one `nome_cliente`; a mean over no amounts is NaN,
      here None. */
  datatype ClientSummary = ClientSummary(client: Value, total: real, documents: nat, mean: Option<real>)

  /** Every `valor_total` the summary adds up is a number or missing. */
  predicate NumericTotals(rows: seq<Row>) {
    forall i :: 0 <= i < |rows| ==> Lookup(rows[i], ValorTotal).Num? || Lookup(rows[i], ValorTotal).Missing?
  }

  /** The rows of one client, in order. */
  function ClientRows(rows: seq<Row>, k: Value): seq<Row> {
    Seqs.Filter(rows, (x: Row) => Lookup(x, NomeCliente) == k)
  }

  /** `sum` skips missing amounts and is 0 over none. */
  function AmountSum(rows: seq<Row>): real {
    if rows == [] then 0.0
    else
      var last := Lookup(rows[|rows| - 1], ValorTotal);
      AmountSum(rows[..|rows| - 1]) + (if last.Num? then last.x else 0.0)
  }

  /** How many amounts are present. */
  function AmountCount(rows: seq<Row>): nat {
    if rows == [] then 0
    else AmountCount(rows[..|rows| - 1]) + (if Lookup(rows[|rows| - 1], ValorTotal).Num? then 1 else 0)
  }

  /** `count` of `id_fatura`: how many ids are present. */
  function IdCount(rows: seq<Row>): nat {
    if rows == [] then 0
    else IdCount(rows[..|rows| - 1]) + (if Lookup(rows[|rows| - 1], IdFatura).Missing? then 0 else 1)
  }

  /** `mean`: the sum of the present amounts over their number. */
  function Mean(rows: seq<Row>): Option<real> {
    var n := AmountCount(rows);
    if n == 0 then None else Some(AmountSum(rows) / n as real)
  }

  /** What the summary row of client `k` must hold. */
  function Expected(rows: seq<Row>, k: Value): ClientSummary {
    var own := ClientRows(rows, k);
    ClientSummary(k, AmountSum(own), IdCount(own), Mean(own))
  }

  /** The groups of `groupby("nome_cliente")`: every name present in some
      row; missing names form no group. */
  function Clients(rows: seq<Row>): set<Value> {
    set i | 0 <= i < |rows| && !Lookup(rows[i], NomeCliente).Missing? :: Lookup(rows[i], NomeCliente)
  }

  /** `sort_values(by="total_faturado", ascending=False)` as an order. */
  predicate ByTotalDescending(a: ClientSummary, b: ClientSummary) {
    a.total >= b.total
  }

  // The running totals of one client while the rows are scanned.
  datatype Tally = Tally(sum: real, ids: nat, amounts: nat)

  const NoRows := Tally(0.0, 0, 0)

  function TallyOf(rows: seq<Row>, k: Value): Tally {
    var own := ClientRows(rows, k);
    Tally(AmountSum(own), IdCount(own), AmountCount(own))
  }

  function Add(t: Tally, r: Row): Tally {
    var v := Lookup(r, ValorTotal);
    Tally(t.sum + (if v.Num? then v.x else 0.0),
          t.ids + (if Lookup(r, IdFatura).Missing? then 0 else 1),
          t.amounts + (if v.Num? then 1 else 0))
  }

  function Finish(k: Value, t: Tally): ClientSummary {
    ClientSummary(k, t.sum, t.ids, if t.amounts == 0 then None else Some(t.sum / t.amounts as real))
  }

  /** The rows of a client in a one-row-longer prefix. */
  lemma ClientRowsStep(rows: seq<Row>, i: nat, k: Value)
    requires i < |rows|
    ensures ClientRows(rows[..i + 1], k) ==
              ClientRows(rows[..i], k) + (if Lookup(rows[i], NomeCliente) == k then [rows[i]] else [])
  {
    var p := (x: Row) => Lookup(x, NomeCliente) == k;
    assert rows[..i + 1] == rows[..i] + [rows[i]];
    Seqs.FilterConcat(rows[..i], [rows[i]], p);
    assert Seqs.Filter([rows[i]], p) == if p(rows[i]) then [rows[i]] else [] by {
      assert [rows[i]][1..] == [];
    }
  }

  /** Appending a row adds it to the sums and counts. */
  lemma AddLast(own: seq<Row>, r: Row)
    ensures Tally(AmountSum(own + [r]), IdCount(own + [r]), AmountCount(own + [r])) ==
              Add(Tally(AmountSum(own), IdCount(own), AmountCount(own)), r)
  {
    assert (own + [r])[..|own|] == own;
  }

  /** Scanning one more row adds it to its own client's tally only. */
  lemma TallyStep(rows: seq<Row>, i: nat, k: Value)
    requires i < |rows|
    ensures TallyOf(rows[..i + 1], k) ==
              if Lookup(rows[i], NomeCliente) == k then Add(TallyOf(rows[..i], k), rows[i]) else TallyOf(rows[..i], k)
  {
    ClientRowsStep(rows, i, k);
    var own := ClientRows(rows[..i], k);
    if Lookup(rows[i], NomeCliente) == k {
      AddLast(own, rows[i]);
    } else {
      assert own + [] == own;
    }
  }

  /** The clients of a prefix grow by the name of the next row. */
  lemma ClientsStep(rows: seq<Row>, i: nat)
    requires i < |rows|
    ensures Clients(rows[..i + 1]) ==
              Clients(rows[..i]) + (if Lookup(rows[i], NomeCliente).Missing? then {} else {Lookup(rows[i], NomeCliente)})
  {
    var a := rows[..i];
    var b := rows[..i + 1];
    forall v | v in Clients(b)
      ensures v in Clients(a) || (v == Lookup(rows[i], NomeCliente) && !v.Missing?)
    {
      var j :| 0 <= j < |b| && !Lookup(b[j], NomeCliente).Missing? && Lookup(b[j], NomeCliente) == v;
      if j < i {
        assert b[j] == a[j];
      }
    }
    forall v | v in Clients(a)
      ensures v in Clients(b)
    {
      var j :| 0 <= j < |a| && !Lookup(a[j], NomeCliente).Missing? && Lookup(a[j], NomeCliente) == v;
      assert b[j] == a[j];
    }
    if !Lookup(rows[i], NomeCliente).Missing? {
      assert b[i] == rows[i];
    }
  }

  /** Reordering a list of expected rows with distinct clients keeps the
      clients distinct. */
  lemma DistinctClientsKept(rows: seq<Row>, a: seq<ClientSummary>, b: seq<ClientSummary>)
    requires multiset(a) == multiset(b)
    requires forall i :: 0 <= i < |a| ==> a[i] == Expected(rows, a[i].client)
    requires forall i, j :: 0 <= i < j < |a| ==> a[i].client != a[j].client
    ensures forall i, j :: 0 <= i < j < |b| ==> b[i].client != b[j].client
  {
    forall i, j | 0 <= i < j < |b|
      ensures b[i].client != b[j].client
    {
      assert b[i] in multiset(a) && b[j] in multiset(a);
      var m :| 0 <= m < |a| && a[m] == b[i];
      var n :| 0 <= n < |a| && a[n] == b[j];
      Seqs.RepeatedIffOtherPosition(a, m);
      Seqs.RepeatedIffOtherPosition(b, i);
      assert b[j] != b[i];
    }
  }

  /** `acc` holds the tally of every client of `rows` and of no one else. */
  ghost predicate Tallied(rows: seq<Row>, acc: map<Value, Tally>) {
    && acc.Keys == Clients(rows)
    && forall k :: k != Missing ==> TallyOf(rows, k) == (if k in acc then acc[k] else NoRows)
  }

  /** Adds one row to the running tallies. */
  function Scan(acc: map<Value, Tally>, r: Row): map<Value, Tally> {
    var k := Lookup(r, NomeCliente);
    if k.Missing? then acc
    else acc[k := Add(if k in acc then acc[k] else NoRows, r)]
  }

  lemma NothingTallied()
    ensures Tallied([], map[])
  {
    forall k | k != Missing
      ensures TallyOf([], k) == NoRows
    {
      assert ClientRows([], k) == [];
    }
  }

  /** One scanning step keeps the tallies exact. */
  lemma ScanStep(rows: seq<Row>, i: nat, acc: map<Value, Tally>)
    requires i < |rows| && Tallied(rows[..i], acc)
    ensures Tallied(rows[..i + 1], Scan(acc, rows[i]))
  {
    var acc' := Scan(acc, rows[i]);
    ClientsStep(rows, i);
    forall k | k != Missing
      ensures TallyOf(rows[..i + 1], k) == (if k in acc' then acc'[k] else NoRows)
    {
      TallyStep(rows, i, k);
    }
  }

  /** A finished tally is the expected summary row of its client. */
  lemma FinishedTally(rows: seq<Row>, acc: map<Value, Tally>, k: Value)
    requires Tallied(rows, acc) && k in acc
    ensures Finish(k, acc[k]) == Expected(rows, k)
  {
    var i :| 0 <= i < |rows| && !Lookup(rows[i], NomeCliente).Missing? && Lookup(rows[i], NomeCliente) == k;
  }

  /** The summary rows of the clients in `order`, in that order. */
  function FinishAll(order: seq<Value>, acc: map<Value, Tally>): (list: seq<ClientSummary>)
    requires forall k :: k in order ==> k in acc
    ensures |list| == |order|
    ensures forall m :: 0 <= m < |list| ==> list[m].client == order[m]
  {
    seq(|order|, m requires 0 <= m < |order| => Finish(order[m], acc[order[m]]))
  }

  /** Finishing exact tallies gives the expected rows. */
  lemma AllFinished(rows: seq<Row>, acc: map<Value, Tally>, order: seq<Value>)
    requires Tallied(rows, acc)
    requires forall k :: k in order ==> k in acc
    ensures forall m :: 0 <= m < |order| ==> FinishAll(order, acc)[m] == Expected(rows, order[m])
  {
    forall m | 0 <= m < |order|
      ensures FinishAll(order, acc)[m] == Expected(rows, order[m])
    {
      FinishedTally(rows, acc, order[m]);
    }
  }

  /** Every row of a reordered list of expected rows is expected. */
  lemma StillExpected(rows: seq<Row>, list: seq<ClientSummary>, sorted: seq<ClientSummary>)
    requires forall m :: 0 <= m < |list| ==> list[m] == Expected(rows, list[m].client)
    requires multiset(sorted) == multiset(list)
    ensures forall m :: 0 <= m < |sorted| ==> sorted[m] == Expected(rows, sorted[m].client)
  {
    forall m | 0 <= m < |sorted|
      ensures sorted[m] == Expected(rows, sorted[m].client)
    {
      assert sorted[m] in multiset(list);
    }
  }

  /** The rows built for the clients of the table, in any order, name
      exactly those clients. */
  lemma SummaryClients(rows: seq<Row>, order: seq<Value>, list: seq<ClientSummary>, sorted: seq<ClientSummary>)
    requires forall k :: k in order <==> k in Clients(rows)
    requires |list| == |order|
    requires forall m :: 0 <= m < |list| ==> list[m].client == order[m]
    requires multiset(sorted) == multiset(list)
    ensures (set m | 0 <= m < |sorted| :: sorted[m].client) == Clients(rows)
  {
    var names := set m | 0 <= m < |sorted| :: sorted[m].client;
    forall v | v in names
      ensures v in Clients(rows)
    {
      var m :| 0 <= m < |sorted| && sorted[m].client == v;
      assert sorted[m] in multiset(list);
      var n :| 0 <= n < |list| && list[n] == sorted[m];
      assert order[n] == v;
    }
    forall v | v in Clients(rows)
      ensures v in names
    {
      var n :| 0 <= n < |order| && order[n] == v;
      assert list[n] in multiset(sorted);
      var m :| 0 <= m < |sorted| && sorted[m] == list[n];
    }
  }

  /** The summary built from exact tallies of distinct clients, in any
      order: expected rows of exactly the table's clients, once each. */
  lemma SummaryOfTallies(rows: seq<Row>, acc: map<Value, Tally>, order: seq<Value>, sorted: seq<ClientSummary>)
    requires Tallied(rows, acc)
    requires forall k :: k in order <==> k in acc
    requires forall m, n :: 0 <= m < n < |order| ==> order[m] != order[n]
    requires multiset(sorted) == multiset(FinishAll(order, acc))
    ensures forall m :: 0 <= m < |sorted| ==> sorted[m] == Expected(rows, sorted[m].client)
    ensures forall i, j :: 0 <= i < j < |sorted| ==> sorted[i].client != sorted[j].client
    ensures (set m | 0 <= m < |sorted| :: sorted[m].client) == Clients(rows)
  {
    var list := FinishAll(order, acc);
    AllFinished(rows, acc, order);
    assert forall m :: 0 <= m < |list| ==> list[m] == Expected(rows, list[m].client);
    DistinctClientsKept(rows, list, sorted);
    StillExpected(rows, list, sorted);
    SummaryClients(rows, order, list, sorted);
  }

  /** The `resumo_cliente` block of `gerar_relatorio`: one row per present
      `nome_cliente` with the sum and mean of its amounts and the number of
      its ids, largest total first. Without `nome_cliente` or `valor_total`
      the summary is empty; with both but no `id_fatura` the named
      aggregation raises a KeyError (Failure). Ties in the total may come
      out in any order. */
  method Summarize(t: Table) returns (r: Result<seq<ClientSummary>, string>)
    requires WellFormed(t)
    requires NumericTotals(t.rows)
    ensures r.Failure? <==> NomeCliente in t.cols && ValorTotal in t.cols && IdFatura !in t.cols
    ensures NomeCliente !in t.cols || ValorTotal !in t.cols ==> r == Success([])
    ensures r.Success? ==> forall i, j :: 0 <= i < j < |r.value| ==> r.value[i].total >= r.value[j].total
    ensures r.Success? ==> forall i :: 0 <= i < |r.value| ==> r.value[i] == Expected(t.rows, r.value[i].client)
    ensures r.Success? ==> forall i, j :: 0 <= i < j < |r.value| ==> r.value[i].client != r.value[j].client
    ensures r.Success? && NomeCliente in t.cols && ValorTotal in t.cols ==>
              (set i | 0 <= i < |r.value| :: r.value[i].client) == Clients(t.rows)
  {
    if NomeCliente !in t.cols || ValorTotal !in t.cols {
      return Success([]);
    }
    if IdFatura !in t.cols {
      return Failure("KeyError: Column(s) ['id_fatura'] do not exist");
    }
    var rows := t.rows;
    var acc: map<Value, Tally> := map[];
    var order: seq<Value> := [];
    var i := 0;
    NothingTallied();
    while i < |rows|
      invariant 0 <= i <= |rows|
      invariant Tallied(rows[..i], acc)
      invariant forall k :: k in order <==> k in acc
      invariant forall m, n :: 0 <= m < n < |order| ==> order[m] != order[n]
    {
      var k := Lookup(rows[i], NomeCliente);
      ScanStep(rows, i, acc);
      if !k.Missing? && k !in acc {
        order := order + [k];
      }
      acc := Scan(acc, rows[i]);
      i := i + 1;
    }
    assert rows[..i] == rows;
    var list := FinishAll(order, acc);
    var sorted := Seqs.Sort(list, ByTotalDescending);
    SummaryOfTallies(rows, acc, order, sorted);
    return Success(sorted);
  }
}
