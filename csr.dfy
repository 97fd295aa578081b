/** The compressed sparse row (CSR) adjacency store of `GraphLocal`: the
    index pointer `ai`, the column indices `aj` and the stored weights `a`
    (`adjacency_matrix.indptr`, `.indices` and `.data`), and the weight
    matrix they denote. */
module CsrMatrix {

  datatype Entry = Entry(col: nat, w: real)

  datatype Csr = Csr(n: nat, ai: seq<nat>, aj: seq<nat>, a: seq<real>)

  /** The shape every CSR array triple of an `n`-vertex graph has. */
  predicate Valid(g: Csr)
  {
    && |g.ai| == g.n + 1
    && g.ai[0] == 0
    && g.ai[g.n] == |g.aj|
    && |g.a| == |g.aj|
    && (forall i, j :: 0 <= i <= j <= g.n ==> g.ai[i] <= g.ai[j])
    && (forall k :: 0 <= k < |g.aj| ==> g.aj[k] < g.n)
  }

  predicate Increasing(s: seq<nat>)
  {
    forall p, q :: 0 <= p < q < |s| ==> s[p] < s[q]
  }

  /** The stored column indices of row `i`, in storage order. */
  function Cols(g: Csr, i: nat): seq<nat>
    requires Valid(g) && i < g.n
  {
    g.aj[g.ai[i]..g.ai[i + 1]]
  }

  /** The stored weights of row `i`, in storage order. */
  function RowValues(g: Csr, i: nat): seq<real>
    requires Valid(g) && i < g.n
  {
    g.a[g.ai[i]..g.ai[i + 1]]
  }

  /** scipy's canonical format: within each row the columns strictly increase. */
  predicate Canonical(g: Csr)
  {
    Valid(g) && forall i :: 0 <= i < g.n ==> Increasing(Cols(g, i))
  }

  /** Replacing the weights, and nothing else, keeps a store canonical. */
  lemma ReweightedCanonical(g: Csr, w: seq<real>)
    requires Canonical(g) && |w| == |g.a|
    ensures Canonical(g.(a := w))
  {
    forall i | 0 <= i < g.n ensures Increasing(Cols(g.(a := w), i)) {
      assert Cols(g.(a := w), i) == Cols(g, i);
    }
  }

  /** Row `i` as (column, weight) entries, in storage order. */
  function Row(g: Csr, i: nat): (row: seq<Entry>)
    requires Valid(g) && i < g.n
    ensures |row| == g.ai[i + 1] - g.ai[i]
    ensures forall p :: 0 <= p < |row| ==> row[p].col == g.aj[g.ai[i] + p] && row[p].w == g.a[g.ai[i] + p]
  {
    var lo, hi := g.ai[i], g.ai[i + 1];
    seq(hi - lo, p requires 0 <= p < hi - lo => Entry(g.aj[lo + p], g.a[lo + p]))
  }

  function Columns(row: seq<Entry>): seq<nat>
  {
    seq(|row|, p requires 0 <= p < |row| => row[p].col)
  }

  function Weights(row: seq<Entry>): seq<real>
  {
    seq(|row|, p requires 0 <= p < |row| => row[p].w)
  }

  /** The total weight of the entries of `row` in column `j`. */
  function EntryWeight(row: seq<Entry>, j: nat): real
  {
    if |row| == 0 then 0.0
    else EntryWeight(row[..|row| - 1], j) + (if row[|row| - 1].col == j then row[|row| - 1].w else 0.0)
  }

  /** The weight matrix W(i, j) the arrays denote (0 where nothing is stored). */
  function Weight(g: Csr, i: nat, j: nat): real
    requires Valid(g) && i < g.n
  {
    EntryWeight(Row(g, i), j)
  }

  predicate Symmetric(g: Csr)
  {
    Valid(g) && forall i, j :: 0 <= i < g.n && 0 <= j < g.n ==> Weight(g, i, j) == Weight(g, j, i)
  }

  lemma RowColumns(g: Csr, i: nat)
    requires Valid(g) && i < g.n
    ensures Columns(Row(g, i)) == Cols(g, i)
    ensures Weights(Row(g, i)) == RowValues(g, i)
  {
  }

  /** A column that does not occur in a row carries no weight there. */
  lemma {:induction false} EntryWeightAbsent(row: seq<Entry>, j: nat)
    requires j !in Columns(row)
    ensures EntryWeight(row, j) == 0.0
  {
    if |row| > 0 {
      assert Columns(row[..|row| - 1]) == Columns(row)[..|row| - 1];
      EntryWeightAbsent(row[..|row| - 1], j);
      assert Columns(row)[|row| - 1] == row[|row| - 1].col;
    }
  }

  // ---- Assembling a CSR triple from rows (what scipy's constructors produce) ----

  function Flatten(rows: seq<seq<Entry>>): seq<Entry>
  {
    if |rows| == 0 then [] else Flatten(rows[..|rows| - 1]) + rows[|rows| - 1]
  }

  function Offsets(rows: seq<seq<Entry>>): (ai: seq<nat>)
    ensures |ai| == |rows| + 1
  {
    if |rows| == 0 then [0] else Offsets(rows[..|rows| - 1]) + [|Flatten(rows)|]
  }

  /** The CSR triple whose row `i` is `rows[i]`. */
  function FromRows(rows: seq<seq<Entry>>): Csr
  {
    var f := Flatten(rows);
    Csr(|rows|, Offsets(rows),
        seq(|f|, k requires 0 <= k < |f| => f[k].col),
        seq(|f|, k requires 0 <= k < |f| => f[k].w))
  }

  /** Every column of `row` is below `n`. */
  predicate RowBelow(row: seq<Entry>, n: nat)
  {
    forall p :: 0 <= p < |row| ==> row[p].col < n
  }

  /** Every column of every row is below `n`. */
  predicate RowsBelow(rows: seq<seq<Entry>>, n: nat)
  {
    forall i :: 0 <= i < |rows| ==> RowBelow(rows[i], n)
  }

  lemma {:induction false} OffsetsLayout(rows: seq<seq<Entry>>)
    ensures Offsets(rows)[0] == 0 && Offsets(rows)[|rows|] == |Flatten(rows)|
    ensures forall i, j :: 0 <= i <= j <= |rows| ==> Offsets(rows)[i] <= Offsets(rows)[j]
    ensures forall i :: 0 <= i < |rows| ==>
      Offsets(rows)[i] + |rows[i]| == Offsets(rows)[i + 1] &&
      Flatten(rows)[Offsets(rows)[i]..Offsets(rows)[i + 1]] == rows[i]
  {
    if |rows| > 0 {
      var pre := rows[..|rows| - 1];
      OffsetsLayout(pre);
      var o, o' := Offsets(rows), Offsets(pre);
      var f, f' := Flatten(rows), Flatten(pre);
      assert f == f' + rows[|rows| - 1];
      assert o == o' + [|f|];
      forall i | 0 <= i < |rows|
        ensures o[i] + |rows[i]| == o[i + 1] && f[o[i]..o[i + 1]] == rows[i]
      {
        if i < |pre| {
          assert rows[i] == pre[i];
          assert f[o[i]..o[i + 1]] == f'[o'[i]..o'[i + 1]];
        } else {
          assert o[i] == |f'|;
        }
      }
    }
  }

  lemma {:induction false} FlattenColumnsBelow(rows: seq<seq<Entry>>, n: nat)
    requires RowsBelow(rows, n)
    ensures forall k :: 0 <= k < |Flatten(rows)| ==> Flatten(rows)[k].col < n
  {
    if |rows| > 0 {
      var pre := rows[..|rows| - 1];
      FlattenColumnsBelow(pre, n);
      var f, f' := Flatten(rows), Flatten(pre);
      forall k | 0 <= k < |f| ensures f[k].col < n {
        if k >= |f'| {
          assert f[k] == rows[|rows| - 1][k - |f'|];
        }
      }
    }
  }

  /** Assembling rows whose columns are below their count gives a valid CSR triple. */
  lemma FromRowsValid(rows: seq<seq<Entry>>)
    requires RowsBelow(rows, |rows|)
    ensures Valid(FromRows(rows)) && FromRows(rows).n == |rows|
  {
    OffsetsLayout(rows);
    FlattenColumnsBelow(rows, |rows|);
  }

  /** Row `i` of the assembled triple is `rows[i]`. */
  lemma FromRowsRow(rows: seq<seq<Entry>>, i: nat)
    requires RowsBelow(rows, |rows|) && i < |rows|
    ensures Valid(FromRows(rows)) && Row(FromRows(rows), i) == rows[i]
  {
    FromRowsValid(rows);
    OffsetsLayout(rows);
    var g := FromRows(rows);
    var f := Flatten(rows);
    var lo, hi := g.ai[i], g.ai[i + 1];
    assert f[lo..hi] == rows[i];
    forall p | 0 <= p < |rows[i]| ensures Row(g, i)[p] == rows[i][p] {
      assert f[lo..hi][p] == f[lo + p];
      assert g.aj[lo + p] == f[lo + p].col && g.a[lo + p] == f[lo + p].w;
    }
  }

  /** `row` with every weight replaced by 1. */
  function UnitRow(row: seq<Entry>): (r: seq<Entry>)
    ensures |r| == |row|
  {
    seq(|row|, p requires 0 <= p < |row| => Entry(row[p].col, 1.0))
  }

  function UnitRows(rows: seq<seq<Entry>>): (r: seq<seq<Entry>>)
    ensures |r| == |rows|
  {
    seq(|rows|, i requires 0 <= i < |rows| => UnitRow(rows[i]))
  }

  lemma {:induction false} FlattenUnitRows(rows: seq<seq<Entry>>)
    ensures Flatten(UnitRows(rows)) == UnitRow(Flatten(rows))
    ensures Offsets(UnitRows(rows)) == Offsets(rows)
  {
    if |rows| > 0 {
      var pre := rows[..|rows| - 1];
      FlattenUnitRows(pre);
      assert UnitRows(rows)[..|rows| - 1] == UnitRows(pre);
      assert UnitRow(Flatten(rows)) == UnitRow(Flatten(pre)) + UnitRow(rows[|rows| - 1]);
    }
  }

  /** Assembling the rows with unit weights gives the same index arrays as
      assembling the rows themselves, with every stored weight 1. */
  lemma FromUnitRows(rows: seq<seq<Entry>>)
    ensures FromRows(UnitRows(rows)) == FromRows(rows).(a := FromRows(UnitRows(rows)).a)
    ensures forall k :: 0 <= k < |FromRows(UnitRows(rows)).a| ==> FromRows(UnitRows(rows)).a[k] == 1.0
  {
    FlattenUnitRows(rows);
  }

  /** Assembling rows gives a valid CSR triple whose rows are exactly the given ones. */
  lemma FromRowsRows(rows: seq<seq<Entry>>)
    requires RowsBelow(rows, |rows|)
    ensures Valid(FromRows(rows)) && FromRows(rows).n == |rows|
    ensures forall i :: 0 <= i < |rows| ==> Row(FromRows(rows), i) == rows[i]
  {
    FromRowsValid(rows);
    forall i | 0 <= i < |rows| ensures Row(FromRows(rows), i) == rows[i] {
      FromRowsRow(rows, i);
    }
  }
}
