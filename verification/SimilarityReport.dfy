/** `compute_similarity_report`: for every rule, the `top_k` other rules
    most similar to it, read from the square matrix of pairwise cosine
    similarities whose rows and columns are labelled by rule name. */
module SimilarityReport {
  import opened Wrappers
  import opened Ranking

  /** One row of the report table. */
  datatype ReportRow = ReportRow(rule: string, similarRule: string, similarity: real)

  /** `sim` is an `n` by `n` matrix. */
  predicate IsMatrix(sim: seq<seq<real>>, n: nat) {
    |sim| == n && forall i | 0 <= i < n :: |sim[i]| == n
  }

  predicate DistinctNames(names: seq<string>) {
    forall i, j | 0 <= i < j < |names| :: names[i] != names[j]
  }

  // ---------------------------------------------------------------------
  // One rule's block

  /** The columns of a row after `drop(rule)`: every column but `i`, in
      column order. */
  function Others(n: nat, i: nat): (r: seq<nat>)
    ensures InRange(r, n)
    ensures forall p | 0 <= p < |r| :: r[p] != i
    ensures forall p, q | 0 <= p < q < |r| :: r[p] < r[q]
    ensures forall j | 0 <= j < n && j != i :: j in r
    ensures |r| == if i < n then n - 1 else n
  {
    if n == 0 then []
    else Others(n - 1, i) + (if n - 1 == i then [] else [n - 1])
  }

  /** The columns chosen for rule `i`:
      `sim_df.loc[rule].drop(rule).sort_values(ascending=False).head(top_k)`. */
  function Block(sim: seq<seq<real>>, i: nat, k: int): (r: seq<nat>)
    requires IsMatrix(sim, |sim|) && i < |sim|
    ensures InRange(r, |sim|)
    ensures NonIncreasing(r, sim[i])
    ensures forall p | 0 <= p < |r| :: r[p] != i
    ensures Distinct(r)
    ensures k >= 0 ==> |r| == if k < |sim| - 1 then k else |sim| - 1
  {
    TopK(Others(|sim|, i), sim[i], k)
  }

  /** Every chosen column scores at least as high as every column passed
      over: the block is a top-`k`. */
  lemma BlockIsTop(sim: seq<seq<real>>, i: nat, k: int, j: nat)
    requires IsMatrix(sim, |sim|) && i < |sim|
    requires j < |sim| && j != i && j !in Block(sim, i, k)
    ensures forall p | 0 <= p < |Block(sim, i, k)| :: sim[i][Block(sim, i, k)[p]] >= sim[i][j]
  {
    TopKIsTop(Others(|sim|, i), sim[i], k, j);
  }

  // ---------------------------------------------------------------------
  // The report

  function BlockRows(names: seq<string>, sim: seq<seq<real>>, i: nat, k: int): (r: seq<ReportRow>)
    requires IsMatrix(sim, |names|) && i < |names|
    ensures |r| == |Block(sim, i, k)|
  {
    var b := Block(sim, i, k);
    seq(|b|, p requires 0 <= p < |b| => ReportRow(names[i], names[b[p]], sim[i][b[p]]))
  }

  /** The blocks of all rules, in index order. */
  function Blocks(names: seq<string>, sim: seq<seq<real>>, k: int): (r: seq<seq<ReportRow>>)
    requires IsMatrix(sim, |names|)
    ensures |r| == |names|
  {
    seq(|names|, i requires 0 <= i < |names| => BlockRows(names, sim, i, k))
  }

  /** Blocks laid end to end. */
  function Concat<T>(bs: seq<seq<T>>): seq<T> {
    if |bs| == 0 then [] else bs[0] + Concat(bs[1..])
  }

  /** `compute_similarity_report(df, embeddings, top_k)`: the blocks of the
      rules in table order. With a repeated rule name, `sim_df.loc[rule]` is
      a table rather than a row and the sort raises, modelled as an error. */
  function Report(names: seq<string>, sim: seq<seq<real>>, k: int): (r: Result<seq<ReportRow>>)
    requires IsMatrix(sim, |names|)
    ensures r.Ok? <==> DistinctNames(names)
  {
    if DistinctNames(names) then Ok(Concat(Blocks(names, sim, k)))
    else Err("duplicate rule name")
  }

  /** How many columns a block holds for a non-negative `k`. */
  function BlockSize(n: nat, k: nat): nat {
    if n == 0 then 0 else if k < n - 1 then k else n - 1
  }

  /** Where block `i` starts when every block holds `m` entries: `i * m`. */
  function Offset(i: nat, m: nat): nat {
    if i == 0 then 0 else m + Offset(i - 1, m)
  }

  lemma {:induction false} OffsetIsProduct(i: nat, m: nat)
    ensures Offset(i, m) == i * m
  {
    if i > 0 {
      OffsetIsProduct(i - 1, m);
      assert i * m == m + (i - 1) * m;
    }
  }

  /** Blocks of one size `m` laid end to end: entry `p` of block `i` sits at
      `i * m + p`. */
  lemma {:induction false} ConcatUniform<T>(bs: seq<seq<T>>, m: nat, i: nat, p: nat)
    requires forall j | 0 <= j < |bs| :: |bs[j]| == m
    requires i < |bs| && p < m
    ensures |Concat(bs)| == Offset(|bs|, m)
    ensures Offset(i, m) + p < |Concat(bs)| && Concat(bs)[Offset(i, m) + p] == bs[i][p]
  {
    if i == 0 {
      if |bs| > 1 {
        ConcatUniform(bs[1..], m, 0, p);
      }
    } else {
      ConcatUniform(bs[1..], m, i - 1, p);
    }
  }

  /** Every entry of laid-out blocks comes from one of the blocks. */
  lemma {:induction false} ConcatMember<T>(bs: seq<seq<T>>, x: T)
    requires x in Concat(bs)
    ensures exists i, p | 0 <= i < |bs| && 0 <= p < |bs[i]| :: bs[i][p] == x
  {
    if x in bs[0] {
      var p :| 0 <= p < |bs[0]| && bs[0][p] == x;
      assert bs[0][p] == x;
    } else {
      ConcatMember(bs[1..], x);
      var i, p :| 0 <= i < |bs[1..]| && 0 <= p < |bs[1..][i]| && bs[1..][i][p] == x;
      assert bs[i + 1][p] == x;
    }
  }

  lemma BlocksUniform(names: seq<string>, sim: seq<seq<real>>, k: nat)
    requires IsMatrix(sim, |names|)
    ensures forall j | 0 <= j < |names| :: |Blocks(names, sim, k)[j]| == BlockSize(|names|, k)
  {
    forall j | 0 <= j < |names|
      ensures |Blocks(names, sim, k)[j]| == BlockSize(|names|, k)
    {
      assert |Blocks(names, sim, k)[j]| == |Block(sim, j, k)|;
    }
  }

  /** With a non-negative `k`, every rule gets a block of the same size
      `m`, so the report holds `|names| * m` rows. */
  lemma ReportSize(names: seq<string>, sim: seq<seq<real>>, k: nat)
    requires IsMatrix(sim, |names|) && |names| > 0
    ensures |Concat(Blocks(names, sim, k))| == |names| * BlockSize(|names|, k)
  {
    var m := BlockSize(|names|, k);
    BlocksUniform(names, sim, k);
    if m > 0 {
      ConcatUniform(Blocks(names, sim, k), m, 0, 0);
    } else {
      ConcatEmpty(Blocks(names, sim, k));
    }
    OffsetIsProduct(|names|, m);
  }

  lemma {:induction false} ConcatEmpty<T>(bs: seq<seq<T>>)
    requires forall j | 0 <= j < |bs| :: |bs[j]| == 0
    ensures |Concat(bs)| == Offset(|bs|, 0)
  {
    if |bs| > 0 {
      ConcatEmpty(bs[1..]);
    }
  }

  /** Row `i * m + p` of the report (see `OffsetIsProduct`) is the `p`-th
      pick of rule `i`. */
  lemma ReportLayout(names: seq<string>, sim: seq<seq<real>>, k: nat, i: nat, p: nat)
    requires IsMatrix(sim, |names|) && i < |names|
    requires p < BlockSize(|names|, k)
    ensures p < |Block(sim, i, k)|
    ensures Offset(i, BlockSize(|names|, k)) + p < |Concat(Blocks(names, sim, k))|
    ensures Concat(Blocks(names, sim, k))[Offset(i, BlockSize(|names|, k)) + p] ==
      ReportRow(names[i], names[Block(sim, i, k)[p]], sim[i][Block(sim, i, k)[p]])
  {
    var bs := Blocks(names, sim, k);
    var m := BlockSize(|names|, k);
    BlocksUniform(names, sim, k);
    ConcatUniform(bs, m, i, p);
    assert bs[i] == BlockRows(names, sim, i, k);
  }

  /** No rule is reported as similar to itself, and every row carries the
      similarity of its two rules. */
  lemma ReportRowsValid(names: seq<string>, sim: seq<seq<real>>, k: int, row: ReportRow)
    requires IsMatrix(sim, |names|) && DistinctNames(names)
    requires row in Report(names, sim, k).value
    ensures row.rule != row.similarRule
    ensures exists a, b | 0 <= a < |names| && 0 <= b < |names| ::
      a != b && row == ReportRow(names[a], names[b], sim[a][b])
  {
    var bs := Blocks(names, sim, k);
    ConcatMember(bs, row);
    var i, p :| 0 <= i < |bs| && 0 <= p < |bs[i]| && bs[i][p] == row;
    var b := Block(sim, i, k)[p];
    assert row == ReportRow(names[i], names[b], sim[i][b]);
    if i < b { assert names[i] != names[b]; } else { assert names[b] != names[i]; }
  }
}
