/** The pure part of `carregar_arquivos`: normalising column names and the
    heuristic that renames alternative column names to the expected ones.
    Reading the files and concatenating them is not modelled. */
module Loader {
  import opened Wrappers
  import opened Tables
  import Text
  import Seqs

  // ---------------------------------------------------------------------
  // `_normalizar_colunas`

  /** The Unicode behaviour the normalisation calls but does not define:
      `str.lower()` and `unicodedata.normalize("NFKD", ·)`. */
  datatype Unicode = Unicode(lower: string -> string, nfkd: string -> string)

  /** One name as `_normalizar_colunas` computes it: stripped, lower-cased,
      spaces replaced by `_`, then decomposed and reduced to ASCII. The
      space replacement runs before the decomposition, so a space the
      decomposition produces survives (`NormalizeName` is the corrected
      order). */
  function NormalizeNameAsWritten(u: Unicode, c: string): (r: string)
    ensures forall i :: 0 <= i < |r| ==> Text.IsAscii(r[i])
  {
    Text.KeepAscii(u.nfkd(Text.ReplaceChar(u.lower(Text.Trim(c)), ' ', '_')))
  }

  /** The normalisation as documented: spaces are replaced after the
      decomposition, so the name has no space at all. */
  function NormalizeName(u: Unicode, c: string): (r: string)
    ensures forall i :: 0 <= i < |r| ==> Text.IsAscii(r[i]) && r[i] != ' '
  {
    Text.ReplaceChar(Text.KeepAscii(u.nfkd(u.lower(Text.Trim(c)))), ' ', '_')
  }

  /** Replacing spaces after the decomposition yields the same name as
      the code whenever the decomposition brings in no space. */
  lemma NormalizeNameAgrees(u: Unicode, c: string)
    requires var x := u.lower(Text.Trim(c));
             u.nfkd(Text.ReplaceChar(x, ' ', '_')) == Text.ReplaceChar(u.nfkd(x), ' ', '_')
    ensures NormalizeName(u, c) == NormalizeNameAsWritten(u, c)
  {
    KeepAsciiReplace(u.nfkd(u.lower(Text.Trim(c))));
  }

  /** Dropping non-ASCII characters commutes with replacing one ASCII
      character by another. */
  lemma {:induction false} KeepAsciiReplace(s: string)
    ensures Text.KeepAscii(Text.ReplaceChar(s, ' ', '_')) == Text.ReplaceChar(Text.KeepAscii(s), ' ', '_')
  {
    if s != [] {
      var r := Text.ReplaceChar(s, ' ', '_');
      var rest := Text.ReplaceChar(s[1..], ' ', '_');
      assert r == [r[0]] + rest;
      KeepAsciiReplace(s[1..]);
      var head := if Text.IsAscii(s[0]) then [s[0]] else [];
      assert Text.KeepAscii(s) == head + Text.KeepAscii(s[1..]);
      Text.ReplaceCharConcat(head, Text.KeepAscii(s[1..]), ' ', '_');
      assert Text.KeepAscii(r) == (if Text.IsAscii(r[0]) then [r[0]] else []) + Text.KeepAscii(rest);
    }
  }

  /** On an ASCII name, with `lower` lowering the ASCII letters and the
      decomposition leaving ASCII alone, both orders give the name
      stripped, lower-cased and with its spaces replaced. */
  lemma AsciiName(u: Unicode, c: string)
    requires forall i :: 0 <= i < |c| ==> Text.IsAscii(c[i])
    requires u.lower(Text.Trim(c)) == Text.Lower(Text.Trim(c))
    requires var x := Text.Lower(Text.Trim(c)); u.nfkd(x) == x
    requires var x := Text.ReplaceChar(Text.Lower(Text.Trim(c)), ' ', '_'); u.nfkd(x) == x
    ensures NormalizeNameAsWritten(u, c) == Text.ReplaceChar(Text.Lower(Text.Trim(c)), ' ', '_')
    ensures NormalizeName(u, c) == Text.ReplaceChar(Text.Lower(Text.Trim(c)), ' ', '_')
    ensures forall i :: 0 <= i < |NormalizeName(u, c)| ==>
              NormalizeName(u, c)[i] != ' ' && !Text.IsUpper(NormalizeName(u, c)[i])
  {
    var t := Text.Trim(c);
    var l := Text.Lower(t);
    var x := Text.ReplaceChar(l, ' ', '_');
    assert forall i :: 0 <= i < |t| ==> Text.IsAscii(t[i]);
    assert forall i :: 0 <= i < |l| ==> Text.IsAscii(l[i]);
    assert forall i :: 0 <= i < |x| ==> Text.IsAscii(x[i]);
    KeepAsciiKeepsAscii(x);
    KeepAsciiKeepsAscii(l);
  }

  /** A string of ASCII characters only is kept whole. */
  lemma {:induction false} KeepAsciiKeepsAscii(s: string)
    requires forall i :: 0 <= i < |s| ==> Text.IsAscii(s[i])
    ensures Text.KeepAscii(s) == s
  {
    if s != [] {
      KeepAsciiKeepsAscii(s[1..]);
    }
  }

  /** A header made of two words joined by a no-break space. */
  function NoBreakHeader(a: string, b: string): string {
    a + "\U{A0}" + b
  }

  /** The words of such a header: non-empty, plain ASCII, with no space,
      and not starting or ending the header with whitespace. */
  predicate PlainWord(a: string) {
    a != [] && !Text.IsWhitespace(a[0]) && !Text.IsWhitespace(a[|a| - 1]) &&
    forall i :: 0 <= i < |a| ==> Text.IsAscii(a[i]) && a[i] != ' '
  }

  /** With `lower` leaving the header alone and NFKD turning the no-break
      space into a plain space, as Unicode prescribes, the code as written
      yields the two words joined by a space, while the documented
      normalisation yields them joined by `_`. */
  lemma NoBreakSpaceSurvives(u: Unicode, a: string, b: string)
    requires PlainWord(a) && PlainWord(b)
    requires u.lower(NoBreakHeader(a, b)) == NoBreakHeader(a, b)
    requires u.nfkd(NoBreakHeader(a, b)) == a + " " + b
    ensures NormalizeNameAsWritten(u, NoBreakHeader(a, b)) == a + " " + b
    ensures NormalizeName(u, NoBreakHeader(a, b)) == Name(a, b)
  {
    HeaderUntouched(a, b);
    SpacedAscii(a, b);
    SpacedJoined(a, b);
  }

  /** Stripping keeps the header whole and it has no plain space. */
  lemma HeaderUntouched(a: string, b: string)
    requires PlainWord(a) && PlainWord(b)
    ensures Text.Trim(NoBreakHeader(a, b)) == NoBreakHeader(a, b)
    ensures Text.ReplaceChar(NoBreakHeader(a, b), ' ', '_') == NoBreakHeader(a, b)
  {
    var h := NoBreakHeader(a, b);
    assert h[0] == a[0] && h[|h| - 1] == b[|b| - 1];
    Text.TrimOfTrimmed(h);
    var r := Text.ReplaceChar(h, ' ', '_');
    forall i | 0 <= i < |h| ensures r[i] == h[i] {
      if i < |a| { assert h[i] == a[i]; }
      else if i > |a| { assert h[i] == b[i - |a| - 1]; }
    }
  }

  /** The words joined by a space are plain ASCII. */
  lemma SpacedAscii(a: string, b: string)
    requires PlainWord(a) && PlainWord(b)
    ensures Text.KeepAscii(a + " " + b) == a + " " + b
  {
    var spaced := a + " " + b;
    forall i | 0 <= i < |spaced| ensures Text.IsAscii(spaced[i]) {
      if i < |a| { assert spaced[i] == a[i]; }
      else if i > |a| { assert spaced[i] == b[i - |a| - 1]; }
    }
    KeepAsciiKeepsAscii(spaced);
  }

  /** Replacing the space joins the words by `_`. */
  lemma SpacedJoined(a: string, b: string)
    requires PlainWord(a) && PlainWord(b)
    ensures Text.ReplaceChar(a + " " + b, ' ', '_') == Name(a, b)
  {
    var spaced := a + " " + b;
    var r, n := Text.ReplaceChar(spaced, ' ', '_'), Name(a, b);
    assert |r| == |n|;
    forall i | 0 <= i < |spaced| ensures r[i] == n[i] {
      if i < |a| { assert spaced[i] == a[i] && n[i] == a[i]; }
      else if i > |a| { assert spaced[i] == b[i - |a| - 1] && n[i] == b[i - |a| - 1]; }
    }
  }

  lemma ValorTotalWords()
    ensures PlainWord("valor") && PlainWord("total")
  {
  }

  /** The header `valor`, no-break space, `total`: the code as written does
      not turn it into the expected name `valor_total`; the documented
      normalisation does. */
  lemma NoBreakValorTotal(u: Unicode)
    requires u.lower(NoBreakHeader("valor", "total")) == NoBreakHeader("valor", "total")
    requires u.nfkd(NoBreakHeader("valor", "total")) == "valor" + " " + "total"
    ensures NormalizeNameAsWritten(u, NoBreakHeader("valor", "total")) != Name("valor", "total")
    ensures NormalizeName(u, NoBreakHeader("valor", "total")) == Name("valor", "total")
  {
    ValorTotalWords();
    NoBreakSpaceSurvives(u, "valor", "total");
    SpacedIsNotJoined();
  }

  /** `valor total` is not `valor_total`. */
  lemma SpacedIsNotJoined()
    ensures "valor" + " " + "total" != Name("valor", "total")
  {
    var spaced, joined := "valor" + " " + "total", Name("valor", "total");
    assert spaced[5] != joined[5];
  }

  /** `_normalizar_colunas` with the corrected per-name normalisation
      `NormalizeName`: every name normalised, in order. On a header holding
      a no-break space the code as written keeps a space instead
      (`NoBreakSpaceSurvives`). */
  function NormalizeColumns(u: Unicode, cols: seq<string>): (r: seq<string>)
    ensures |r| == |cols|
    ensures forall i :: 0 <= i < |r| ==> r[i] == NormalizeName(u, cols[i])
    ensures forall i, k :: 0 <= i < |r| && 0 <= k < |r[i]| ==> Text.IsAscii(r[i][k]) && r[i][k] != ' '
  {
    Seqs.Map(cols, c => NormalizeName(u, c))
  }

  // ---------------------------------------------------------------------
  // The rename heuristic

  /** The name `a_b`. The expected names are spelled with it so that their
      underscore-free forms can be worked out word by word. */
  function Name(a: string, b: string): string {
    a + "_" + b
  }

  /** `COLUNAS_ESPERADAS`, in order. */
  const Expected: seq<string> := [
    Name("id", "fatura"), Name("id", "cliente"), Name("nome", "cliente"), Name("data", "emissao"),
    Name("data", "vencimento"), Name("valor", "base"), "imposto", Name("valor", "total"),
    "moeda", Name("metodo", "pagamento"), "status", Name("codigo", "departamento"),
    Name("conta", "analitica"), "observacoes"]

  /** The English names the heuristic recognises. */
  const Aliases: seq<string> := [Name("issue", "date"), Name("invoice", "id"), Name("client", "id"), Name("client", "name"), "total"]

  /** The expected names an English name may be renamed to; position `k`
      is the counterpart of `Aliases[k]`. */
  const AliasTargets: seq<string> := [Expected[3], Expected[0], Expected[1], Expected[2], Expected[7]]

  /** The underscore-free forms of the expected and of the English names. */
  const ExpectedForms: seq<string> := [
    "idfatura", "idcliente", "nomecliente", "dataemissao", "datavencimento",
    "valorbase", "imposto", "valortotal", "moeda", "metodopagamento",
    "status", "codigodepartamento", "contaanalitica", "observacoes"]
  const AliasForms: seq<string> := ["issuedate", "invoiceid", "clientid", "clientname", "total"]

  /** A firing test of the inner loop: may column `col` be renamed to the
      expected name `e`? */
  type Test = (string, string) -> bool

  /** The two tests of the inner loop as written: the names agree once
      underscores are removed, or `col` is an English name and `e` is any
      of the alias targets. */
  predicate Fires(col: string, e: string) {
    Text.RemoveUnderscores(col) == Text.RemoveUnderscores(e) || (col in Aliases && e in AliasTargets)
  }

  /** The tests as evidently intended: an English name may only be renamed
      to its own counterpart. */
  predicate FiresPaired(col: string, e: string) {
    Text.RemoveUnderscores(col) == Text.RemoveUnderscores(e) ||
    exists k :: 0 <= k < |Aliases| && col == Aliases[k] && e == AliasTargets[k]
  }

  /** The inner loop over the columns for one expected name `e`: each
      column that fires is (re)assigned to `e`. */
  function Inner(cols: seq<string>, e: string, m: map<string, string>, fires: Test): map<string, string> {
    if cols == [] then m
    else
      var m' := Inner(cols[..|cols| - 1], e, m, fires);
      var col := cols[|cols| - 1];
      if fires(col, e) then m'[col := e] else m'
  }

  /** The outer loop over the expected names `es`: a name already among
      the columns is skipped. Later expected names overwrite earlier ones. */
  function Outer(es: seq<string>, cols: seq<string>, fires: Test): map<string, string> {
    if es == [] then map[]
    else
      var m := Outer(es[..|es| - 1], cols, fires);
      var e := es[|es| - 1];
      if e in cols then m else Inner(cols, e, m, fires)
  }

  /** The `mapping` dictionary as the code builds it. */
  function MappingAsWritten(cols: seq<string>): map<string, string> {
    Outer(Expected, cols, Fires)
  }

  /** The `mapping` dictionary with each English name paired with its own
      counterpart. */
  function Mapping(cols: seq<string>): map<string, string> {
    Outer(Expected, cols, FiresPaired)
  }

  /** The last of `es` that is not among the columns and for which `col`
      fires. */
  function LastFiring(es: seq<string>, cols: seq<string>, col: string, fires: Test): Option<string> {
    if es == [] then None
    else
      var e := es[|es| - 1];
      if e !in cols && fires(col, e) then Some(e) else LastFiring(es[..|es| - 1], cols, col, fires)
  }

  /** What one inner loop does to one column. */
  lemma {:induction false} InnerAt(cols: seq<string>, e: string, m: map<string, string>, fires: Test, col: string)
    ensures col in Inner(cols, e, m, fires) <==> col in m || (col in cols && fires(col, e))
    ensures col in Inner(cols, e, m, fires) ==>
              Inner(cols, e, m, fires)[col] == if col in cols && fires(col, e) then e else m[col]
  {
    if cols != [] {
      InnerAt(cols[..|cols| - 1], e, m, fires, col);
      assert cols == cols[..|cols| - 1] + [cols[|cols| - 1]];
    }
  }

  /** A column is in the mapping exactly when some absent expected name
      fires for it, and it is mapped to the last such name. */
  lemma {:induction false} OuterAt(es: seq<string>, cols: seq<string>, fires: Test, col: string)
    ensures col in Outer(es, cols, fires) <==> col in cols && LastFiring(es, cols, col, fires).Some?
    ensures col in Outer(es, cols, fires) ==> Outer(es, cols, fires)[col] == LastFiring(es, cols, col, fires).value
  {
    if es != [] {
      OuterAt(es[..|es| - 1], cols, fires, col);
      var e := es[|es| - 1];
      if e !in cols {
        InnerAt(cols, e, Outer(es[..|es| - 1], cols, fires), fires, col);
      }
    }
  }

  /** The last firing name is one of `es`, is absent from the columns and
      fires. */
  lemma {:induction false} LastFiringFires(es: seq<string>, cols: seq<string>, col: string, fires: Test)
    requires LastFiring(es, cols, col, fires).Some?
    ensures LastFiring(es, cols, col, fires).value in es
    ensures LastFiring(es, cols, col, fires).value !in cols
    ensures fires(col, LastFiring(es, cols, col, fires).value)
  {
    if es[|es| - 1] in cols || !fires(col, es[|es| - 1]) {
      LastFiringFires(es[..|es| - 1], cols, col, fires);
    }
  }

  /** When `es[k]` fires and no later absent name of `es` does, `es[k]` is
      the last firing name. */
  lemma {:induction false} LastFiringAt(es: seq<string>, cols: seq<string>, col: string, fires: Test, k: nat)
    requires k < |es| && es[k] !in cols && fires(col, es[k])
    requires forall j :: k < j < |es| && es[j] !in cols ==> !fires(col, es[j])
    ensures LastFiring(es, cols, col, fires) == Some(es[k])
  {
    if k < |es| - 1 {
      LastFiringAt(es[..|es| - 1], cols, col, fires, k);
    }
  }

  /** Whichever test is used, every key of the mapping is a column and
      every target is an expected name that is not already a column. */
  lemma MappingTargetsAbsent(cols: seq<string>, col: string, fires: Test)
    requires col in Outer(Expected, cols, fires)
    ensures col in cols
    ensures Outer(Expected, cols, fires)[col] in Expected
    ensures Outer(Expected, cols, fires)[col] !in cols
  {
    OuterAt(Expected, cols, fires, col);
    LastFiringFires(Expected, cols, col, fires);
  }

  /** The underscore-free form of `a_b` is `a` followed by `b`. */
  lemma Stripped(a: string, b: string, merged: string)
    requires forall i :: 0 <= i < |a| ==> a[i] != '_'
    requires forall i :: 0 <= i < |b| ==> b[i] != '_'
    requires merged == a + b
    ensures Text.RemoveUnderscores(Name(a, b)) == merged
  {
    Text.JoinedWords(a, b);
  }

  lemma ExpectedFormIdFatura()
    ensures Text.RemoveUnderscores(Expected[0]) == ExpectedForms[0]
  {
    var name, form := Expected[0], ExpectedForms[0];
    assert name == Name("id", "fatura") && form == "idfatura";
    Stripped("id", "fatura", "idfatura");
  }

  lemma ExpectedFormIdCliente()
    ensures Text.RemoveUnderscores(Expected[1]) == ExpectedForms[1]
  {
    var name, form := Expected[1], ExpectedForms[1];
    assert name == Name("id", "cliente") && form == "idcliente";
    Stripped("id", "cliente", "idcliente");
  }

  lemma ExpectedFormNomeCliente()
    ensures Text.RemoveUnderscores(Expected[2]) == ExpectedForms[2]
  {
    var name, form := Expected[2], ExpectedForms[2];
    assert name == Name("nome", "cliente") && form == "nomecliente";
    Stripped("nome", "cliente", "nomecliente");
  }

  lemma ExpectedFormDataEmissao()
    ensures Text.RemoveUnderscores(Expected[3]) == ExpectedForms[3]
  {
    var name, form := Expected[3], ExpectedForms[3];
    assert name == Name("data", "emissao") && form == "dataemissao";
    Stripped("data", "emissao", "dataemissao");
  }

  lemma ExpectedFormDataVencimento()
    ensures Text.RemoveUnderscores(Expected[4]) == ExpectedForms[4]
  {
    var name, form := Expected[4], ExpectedForms[4];
    assert name == Name("data", "vencimento") && form == "datavencimento";
    Stripped("data", "vencimento", "datavencimento");
  }

  lemma ExpectedFormValorBase()
    ensures Text.RemoveUnderscores(Expected[5]) == ExpectedForms[5]
  {
    var name, form := Expected[5], ExpectedForms[5];
    assert name == Name("valor", "base") && form == "valorbase";
    Stripped("valor", "base", "valorbase");
  }

  lemma ExpectedFormImposto()
    ensures Text.RemoveUnderscores(Expected[6]) == ExpectedForms[6]
  {
    var name, form := Expected[6], ExpectedForms[6];
    assert name == "imposto" && form == "imposto";
    Text.NoUnderscoreKept("imposto");
  }

  lemma ExpectedFormValorTotal()
    ensures Text.RemoveUnderscores(Expected[7]) == ExpectedForms[7]
  {
    var name, form := Expected[7], ExpectedForms[7];
    assert name == Name("valor", "total") && form == "valortotal";
    Stripped("valor", "total", "valortotal");
  }

  lemma ExpectedFormMoeda()
    ensures Text.RemoveUnderscores(Expected[8]) == ExpectedForms[8]
  {
    var name, form := Expected[8], ExpectedForms[8];
    assert name == "moeda" && form == "moeda";
    Text.NoUnderscoreKept("moeda");
  }

  lemma ExpectedFormMetodoPagamento()
    ensures Text.RemoveUnderscores(Expected[9]) == ExpectedForms[9]
  {
    var name, form := Expected[9], ExpectedForms[9];
    assert name == Name("metodo", "pagamento") && form == "metodopagamento";
    Stripped("metodo", "pagamento", "metodopagamento");
  }

  lemma ExpectedFormStatus()
    ensures Text.RemoveUnderscores(Expected[10]) == ExpectedForms[10]
  {
    var name, form := Expected[10], ExpectedForms[10];
    assert name == "status" && form == "status";
    Text.NoUnderscoreKept("status");
  }

  lemma ExpectedFormCodigoDepartamento()
    ensures Text.RemoveUnderscores(Expected[11]) == ExpectedForms[11]
  {
    var name, form := Expected[11], ExpectedForms[11];
    assert name == Name("codigo", "departamento") && form == "codigodepartamento";
    Stripped("codigo", "departamento", "codigodepartamento");
  }

  lemma ExpectedFormContaAnalitica()
    ensures Text.RemoveUnderscores(Expected[12]) == ExpectedForms[12]
  {
    var name, form := Expected[12], ExpectedForms[12];
    assert name == Name("conta", "analitica") && form == "contaanalitica";
    Stripped("conta", "analitica", "contaanalitica");
  }

  lemma ExpectedFormObservacoes()
    ensures Text.RemoveUnderscores(Expected[13]) == ExpectedForms[13]
  {
    var name, form := Expected[13], ExpectedForms[13];
    assert name == "observacoes" && form == "observacoes";
    Text.NoUnderscoreKept("observacoes");
  }

  lemma AliasFormIssueDate()
    ensures Text.RemoveUnderscores(Aliases[0]) == AliasForms[0]
  {
    var name, form := Aliases[0], AliasForms[0];
    assert name == Name("issue", "date") && form == "issuedate";
    Stripped("issue", "date", "issuedate");
  }

  lemma AliasFormInvoiceId()
    ensures Text.RemoveUnderscores(Aliases[1]) == AliasForms[1]
  {
    var name, form := Aliases[1], AliasForms[1];
    assert name == Name("invoice", "id") && form == "invoiceid";
    Stripped("invoice", "id", "invoiceid");
  }

  lemma AliasFormClientId()
    ensures Text.RemoveUnderscores(Aliases[2]) == AliasForms[2]
  {
    var name, form := Aliases[2], AliasForms[2];
    assert name == Name("client", "id") && form == "clientid";
    Stripped("client", "id", "clientid");
  }

  lemma AliasFormClientName()
    ensures Text.RemoveUnderscores(Aliases[3]) == AliasForms[3]
  {
    var name, form := Aliases[3], AliasForms[3];
    assert name == Name("client", "name") && form == "clientname";
    Stripped("client", "name", "clientname");
  }

  lemma AliasFormTotal()
    ensures Text.RemoveUnderscores(Aliases[4]) == AliasForms[4]
  {
    var name, form := Aliases[4], AliasForms[4];
    assert name == "total" && form == "total";
    Text.NoUnderscoreKept("total");
  }

  lemma ExpectedForm(k: nat)
    requires k < |Expected|
    ensures Text.RemoveUnderscores(Expected[k]) == ExpectedForms[k]
  {
    if k == 0 { ExpectedFormIdFatura(); }
    else if k == 1 { ExpectedFormIdCliente(); }
    else if k == 2 { ExpectedFormNomeCliente(); }
    else if k == 3 { ExpectedFormDataEmissao(); }
    else if k == 4 { ExpectedFormDataVencimento(); }
    else if k == 5 { ExpectedFormValorBase(); }
    else if k == 6 { ExpectedFormImposto(); }
    else if k == 7 { ExpectedFormValorTotal(); }
    else if k == 8 { ExpectedFormMoeda(); }
    else if k == 9 { ExpectedFormMetodoPagamento(); }
    else if k == 10 { ExpectedFormStatus(); }
    else if k == 11 { ExpectedFormCodigoDepartamento(); }
    else if k == 12 { ExpectedFormContaAnalitica(); }
    else { ExpectedFormObservacoes(); }
  }

  lemma AliasForm(k: nat)
    requires k < |Aliases|
    ensures Text.RemoveUnderscores(Aliases[k]) == AliasForms[k]
  {
    if k == 0 { AliasFormIssueDate(); }
    else if k == 1 { AliasFormInvoiceId(); }
    else if k == 2 { AliasFormClientId(); }
    else if k == 3 { AliasFormClientName(); }
    else { AliasFormTotal(); }
  }

  /** No two of the names share an underscore-free form. */
  lemma FormsDistinct()
    ensures forall i, j :: 0 <= i < j < |ExpectedForms| ==> ExpectedForms[i] != ExpectedForms[j]
    ensures forall i, j :: 0 <= i < |ExpectedForms| && 0 <= j < |AliasForms| ==> ExpectedForms[i] != AliasForms[j]
    ensures forall i, j :: 0 <= i < j < |AliasForms| ==> AliasForms[i] != AliasForms[j]
  {
  }

  /** The expected names are pairwise distinct, and none is an English
      name. */
  lemma NamesDistinct()
    ensures forall i, j :: 0 <= i < j < |Expected| ==> Expected[i] != Expected[j]
    ensures forall i, j :: 0 <= i < |Expected| && 0 <= j < |Aliases| ==> Expected[i] != Aliases[j]
    ensures forall i, j :: 0 <= i < j < |Aliases| ==> Aliases[i] != Aliases[j]
  {
    FormsDistinct();
    forall i, j | 0 <= i < j < |Expected| ensures Expected[i] != Expected[j] {
      ExpectedForm(i);
      ExpectedForm(j);
    }
    forall i, j | 0 <= i < |Expected| && 0 <= j < |Aliases| ensures Expected[i] != Aliases[j] {
      ExpectedForm(i);
      AliasForm(j);
    }
    forall i, j | 0 <= i < j < |Aliases| ensures Aliases[i] != Aliases[j] {
      AliasForm(i);
      AliasForm(j);
    }
  }

  /** When no absent name of `es` fires, there is no last firing name. */
  lemma {:induction false} LastFiringNone(es: seq<string>, cols: seq<string>, col: string, fires: Test)
    requires forall j :: 0 <= j < |es| && es[j] !in cols ==> !fires(col, es[j])
    ensures LastFiring(es, cols, col, fires) == None
  {
    if es != [] {
      LastFiringNone(es[..|es| - 1], cols, col, fires);
    }
  }

  /** A column whose underscore-free form is that of an expected name `k`
      fires for that name only, whichever of the two tests is used. */
  lemma StripMatchFires(col: string, k: nat, fires: Test)
    requires k < |Expected| && Text.RemoveUnderscores(col) == ExpectedForms[k]
    requires fires == Fires || fires == FiresPaired
    ensures forall j :: 0 <= j < |Expected| ==> (fires(col, Expected[j]) <==> j == k)
  {
    FormsDistinct();
    forall j | 0 <= j < |Aliases| ensures col != Aliases[j] {
      AliasForm(j);
    }
    forall j | 0 <= j < |Expected| ensures fires(col, Expected[j]) <==> j == k {
      ExpectedForm(j);
      ExpectedForm(k);
    }
  }

  /** A column that agrees with an absent expected name once underscores
      are removed is renamed to that name, by the code as written and by
      the corrected pairing alike. */
  lemma StripMatchMapped(cols: seq<string>, col: string, k: nat)
    requires col in cols && k < |Expected| && Expected[k] !in cols
    requires Text.RemoveUnderscores(col) == Text.RemoveUnderscores(Expected[k])
    ensures col in MappingAsWritten(cols) && MappingAsWritten(cols)[col] == Expected[k]
    ensures col in Mapping(cols) && Mapping(cols)[col] == Expected[k]
  {
    ExpectedForm(k);
    StripMatchFires(col, k, Fires);
    StripMatchFires(col, k, FiresPaired);
    LastFiringAt(Expected, cols, col, Fires, k);
    LastFiringAt(Expected, cols, col, FiresPaired, k);
    OuterAt(Expected, cols, Fires, col);
    OuterAt(Expected, cols, FiresPaired, col);
  }

  /** An expected name that is already a column is left as it is: it is
      not a key of the mapping (nor, by `MappingTargetsAbsent`, a target). */
  lemma PresentNameKept(cols: seq<string>, k: nat)
    requires k < |Expected| && Expected[k] in cols
    ensures Expected[k] !in MappingAsWritten(cols)
    ensures Expected[k] !in Mapping(cols)
  {
    var col := Expected[k];
    ExpectedForm(k);
    StripMatchFires(col, k, Fires);
    StripMatchFires(col, k, FiresPaired);
    LastFiringNone(Expected, cols, col, Fires);
    LastFiringNone(Expected, cols, col, FiresPaired);
    OuterAt(Expected, cols, Fires, col);
    OuterAt(Expected, cols, FiresPaired, col);
  }

  /** The code as written only ever renames an English name to one of the
      five alias targets. */
  lemma AliasOnlyToTargets(cols: seq<string>, j: nat)
    requires j < |Aliases| && Aliases[j] in MappingAsWritten(cols)
    ensures MappingAsWritten(cols)[Aliases[j]] in AliasTargets
  {
    var col := Aliases[j];
    OuterAt(Expected, cols, Fires, col);
    LastFiringFires(Expected, cols, col, Fires);
    var e := MappingAsWritten(cols)[col];
    var i :| 0 <= i < |Expected| && Expected[i] == e;
    ExpectedForm(i);
    AliasForm(j);
    FormsDistinct();
    assert Text.RemoveUnderscores(col) != Text.RemoveUnderscores(e);
  }

  /** No English name agrees with an expected name once underscores are
      removed. */
  lemma AliasNeverStripMatches(j: nat, i: nat)
    requires j < |Aliases| && i < |Expected|
    ensures Text.RemoveUnderscores(Aliases[j]) != Text.RemoveUnderscores(Expected[i])
  {
    ExpectedForm(i);
    AliasForm(j);
    FormsDistinct();
  }

  /** An English name fires, under the corrected pairing, for its own
      counterpart and for no other expected name. */
  lemma AliasFiresPaired(j: nat, i: nat)
    requires j < |Aliases| && i < |Expected|
    ensures FiresPaired(Aliases[j], Expected[i]) <==> Expected[i] == AliasTargets[j]
  {
    AliasNeverStripMatches(j, i);
    NamesDistinct();
    var col, e := Aliases[j], Expected[i];
    assert FiresPaired(col, e) <==> exists k :: 0 <= k < |Aliases| && col == Aliases[k] && e == AliasTargets[k];
    forall k | 0 <= k < |Aliases| && col == Aliases[k] ensures k == j {
    }
  }

  /** The position of each alias target among the expected names. */
  const TargetIndex: seq<nat> := [3, 0, 1, 2, 7]

  /** Under the corrected pairing an English name whose counterpart is
      absent is renamed to that counterpart, whatever other columns there
      are. */
  lemma AliasMappedToCounterpart(cols: seq<string>, j: nat)
    requires j < |Aliases| && Aliases[j] in cols && AliasTargets[j] !in cols
    ensures Aliases[j] in Mapping(cols) && Mapping(cols)[Aliases[j]] == AliasTargets[j]
  {
    var col, k := Aliases[j], TargetIndex[j];
    assert Expected[k] == AliasTargets[j];
    NamesDistinct();
    forall i | 0 <= i < |Expected| ensures FiresPaired(col, Expected[i]) <==> i == k {
      AliasFiresPaired(j, i);
    }
    LastFiringAt(Expected, cols, col, FiresPaired, k);
    OuterAt(Expected, cols, FiresPaired, col);
  }

  /** The code as written sends every English column to `valor_total` when
      that column is absent: it is the last alias target in the order of
      the expected names, and the assignment for it overwrites all earlier
      ones. */
  lemma AliasesCollapseAsWritten(cols: seq<string>, j: nat)
    requires j < |Aliases| && Aliases[j] in cols && Expected[7] !in cols
    ensures Aliases[j] in MappingAsWritten(cols) && MappingAsWritten(cols)[Aliases[j]] == Expected[7]
  {
    var col := Aliases[j];
    NamesDistinct();
    AliasForm(j);
    FormsDistinct();
    assert Fires(col, Expected[7]);
    forall i | 7 < i < |Expected| ensures !Fires(col, Expected[i]) {
      ExpectedForm(i);
    }
    LastFiringAt(Expected, cols, col, Fires, 7);
    OuterAt(Expected, cols, Fires, col);
  }

  /** A concrete case: with `invoice_id` and `client_name` as the only
      columns, the code maps both to `valor_total`, where the corrected
      pairing maps them to `id_fatura` and `nome_cliente`. */
  lemma InvoiceAndClientCollapse(cols: seq<string>)
    requires cols == [Aliases[1], Aliases[3]]
    ensures Aliases[1] in MappingAsWritten(cols) && MappingAsWritten(cols)[Aliases[1]] == Expected[7]
    ensures Aliases[3] in MappingAsWritten(cols) && MappingAsWritten(cols)[Aliases[3]] == Expected[7]
    ensures Aliases[1] in Mapping(cols) && Mapping(cols)[Aliases[1]] == Expected[0]
    ensures Aliases[3] in Mapping(cols) && Mapping(cols)[Aliases[3]] == Expected[2]
  {
    NamesDistinct();
    AliasesCollapseAsWritten(cols, 1);
    AliasesCollapseAsWritten(cols, 3);
    AliasMappedToCounterpart(cols, 1);
    AliasMappedToCounterpart(cols, 3);
  }

  // ---------------------------------------------------------------------
  // Applying the mapping

  /** What the heuristic sees of the concatenated frame: its column names,
      in order, and its rows, one value per column. */
  datatype Frame = Frame(columns: seq<string>, rows: seq<seq<Value>>)

  /** `DataFrame.rename(columns=m)`: each column that is a key of `m` takes
      its image; the data is not touched. */
  function Rename(f: Frame, m: map<string, string>): (r: Frame)
    ensures |r.columns| == |f.columns| && r.rows == f.rows
    ensures forall i :: 0 <= i < |f.columns| && f.columns[i] !in m ==> r.columns[i] == f.columns[i]
    ensures forall i :: 0 <= i < |f.columns| && f.columns[i] in m ==> r.columns[i] == m[f.columns[i]]
  {
    Frame(Seqs.Map(f.columns, c => if c in m then m[c] else c), f.rows)
  }

  /** Lines 56-72 with a given firing test: build the mapping, and rename
      only when it is not empty. */
  function RenameWith(f: Frame, fires: Test): Frame {
    var m := Outer(Expected, f.columns, fires);
    if m == map[] then f else Rename(f, m)
  }

  /** The renaming as the code performs it. */
  function RenameAsWritten(f: Frame): Frame {
    RenameWith(f, Fires)
  }

  /** The renaming with each English name paired with its counterpart. */
  function RenameColumns(f: Frame): Frame {
    RenameWith(f, FiresPaired)
  }

  /** Renaming changes column names only: the number of columns and the
      rows are unchanged, each column keeps its name or takes an expected
      name that was missing, and an expected name already present keeps
      its place. */
  lemma RenameOnlyNames(f: Frame, fires: Test)
    ensures |RenameWith(f, fires).columns| == |f.columns|
    ensures RenameWith(f, fires).rows == f.rows
    ensures forall i :: 0 <= i < |f.columns| ==>
              RenameWith(f, fires).columns[i] == f.columns[i] ||
              (RenameWith(f, fires).columns[i] in Expected && RenameWith(f, fires).columns[i] !in f.columns)
    ensures fires == Fires || fires == FiresPaired ==>
              forall i :: 0 <= i < |f.columns| && f.columns[i] in Expected ==> RenameWith(f, fires).columns[i] == f.columns[i]
  {
    var m := Outer(Expected, f.columns, fires);
    var r := RenameWith(f, fires);
    forall i | 0 <= i < |f.columns|
      ensures r.columns[i] == f.columns[i] || (r.columns[i] in Expected && r.columns[i] !in f.columns)
    {
      if f.columns[i] in m {
        MappingTargetsAbsent(f.columns, f.columns[i], fires);
      }
    }
    if fires == Fires || fires == FiresPaired {
      forall i | 0 <= i < |f.columns| && f.columns[i] in Expected ensures r.columns[i] == f.columns[i] {
        var k :| 0 <= k < |Expected| && Expected[k] == f.columns[i];
        PresentNameKept(f.columns, k);
      }
    }
  }
}
