/** The in-memory table the cleaning pipeline works on: a set of column
    names and a sequence of rows, each row a map from column name to cell. */
module Tables {
  import opened Wrappers
  import Seqs

  /** One cell as pandas holds it. `Missing` is pandas' NaN / NaT marker;
      `Date` is a parsed timestamp, identified by its day ordinal. */
  datatype Value =
    | Missing
    | Str(s: string)
    | Num(x: real)
    | Date(day: int)
    | Flag(b: bool)

  type Row = map<string, Value>

  datatype Table = Table(cols: set<string>, rows: seq<Row>)

  /** Every row has exactly the table's columns, as in a data frame. */
  predicate WellFormed(t: Table) {
    forall i :: 0 <= i < |t.rows| ==> t.rows[i].Keys == t.cols
  }

  /** The library behaviour the cleaning code calls but does not define:
      `toDate` and `toNumber` are `pd.to_datetime` / `pd.to_numeric` on one
      present cell (None where they coerce to a missing value), `round2` is
      `round(·, 2)`, and `showNum` / `showDate` are `str()` of a float or a
      timestamp. Date parsing is taken per cell; a column-wide format
      guess, as pandas 2 makes, is not modelled. */
  datatype Library = Library(
    toDate: Value -> Option<int>,
    toNumber: Value -> Option<real>,
    round2: real -> real,
    showNum: real -> string,
    showDate: int -> string)

  /** `str(v)`, as `astype(str)` and f-strings render a cell. */
  function Render(lib: Library, v: Value): string {
    match v
    case Missing => "nan"
    case Str(s) => s
    case Num(x) => lib.showNum(x)
    case Date(d) => lib.showDate(d)
    case Flag(b) => if b then "True" else "False"
  }

  /** Python truthiness of a cell; NaN is truthy. */
  predicate Truthy(v: Value) {
    match v
    case Missing => true
    case Str(s) => s != ""
    case Num(x) => x != 0.0
    case Date(_) => true
    case Flag(b) => b
  }

  /** The cell of column `c`, or `Missing` when the row has no such column. */
  function Lookup(r: Row, c: string): Value {
    if c in r then r[c] else Missing
  }

  /** Column `c` of a sequence of rows, top to bottom. */
  function Column(rows: seq<Row>, c: string): (vs: seq<Value>)
    ensures |vs| == |rows|
    ensures forall i :: 0 <= i < |rows| ==> vs[i] == Lookup(rows[i], c)
  {
    Seqs.Map(rows, (r: Row) => Lookup(r, c))
  }

  /** Reordering the rows reorders the column the same way. */
  lemma ColumnPermutation(a: seq<Row>, b: seq<Row>, c: string)
    requires multiset(a) == multiset(b)
    ensures multiset(Column(a, c)) == multiset(Column(b, c))
  {
    Seqs.MapPermutation(a, b, (r: Row) => Lookup(r, c));
  }

  /** Rows `a` and `b` hold the same cell, or both lack column `c`. */
  predicate Agree(a: Row, b: Row, c: string) {
    (c in a <==> c in b) && (c in a ==> a[c] == b[c])
  }

  /** `b` differs from `a` at most in the columns `cs`. */
  predicate SameExcept(a: Row, b: Row, cs: set<string>) {
    a - cs == b - cs
  }

  /** What `SameExcept` means column by column. */
  lemma SameExceptAgree(a: Row, b: Row, cs: set<string>, c: string)
    requires SameExcept(a, b, cs) && c !in cs
    ensures Agree(a, b, c)
  {
    assert c in a <==> c in a - cs;
    assert c in b <==> c in b - cs;
    if c in a {
      assert a[c] == (a - cs)[c];
    }
  }

  /** Rows that differ at most in `cs` and agree on each column of `cs` are equal. */
  lemma SameRow(a: Row, b: Row, cs: set<string>)
    requires SameExcept(a, b, cs)
    requires forall c :: c in cs ==> Agree(a, b, c)
    ensures a == b
  {
    forall c | c in a
      ensures c in b && a[c] == b[c]
    {
      if c !in cs {
        SameExceptAgree(a, b, cs, c);
      }
    }
    forall c | c in b
      ensures c in a
    {
      if c !in cs {
        SameExceptAgree(a, b, cs, c);
      }
    }
  }
}
