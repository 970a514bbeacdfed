/** The labelling half of `cluster_rules`: every cluster is named by its
    three most frequent tokens, the names are collected in a table keyed by
    the sorted cluster ids, and every row gets its cluster's name. The
    cluster ids themselves (DBSCAN) and the token counts (CountVectorizer)
    are inputs: `counts[r][t]` is how often vocabulary token `t` occurs in
    the text of row `r`, and `features[t]` is that token. */
module ClusterLabels {
  import opened Wrappers
  import opened Strings
  import opened Assoc
  import opened Ranking

  /** The token counts form a rows-by-vocabulary matrix. */
  predicate CountMatrix(ids: seq<int>, counts: seq<seq<nat>>, features: seq<string>) {
    |counts| == |ids| && forall r | 0 <= r < |counts| :: |counts[r]| == |features|
  }

  predicate InCluster(ids: seq<int>, cid: int) {
    exists r | 0 <= r < |ids| :: ids[r] == cid
  }

  // ---------------------------------------------------------------------
  // Summed counts of one cluster

  /** How often token `t` occurs in the first `n` rows of cluster `cid`. */
  function ColumnSum(ids: seq<int>, counts: seq<seq<nat>>, features: seq<string>, cid: int, t: nat, n: nat): nat
    requires CountMatrix(ids, counts, features) && t < |features| && n <= |ids|
  {
    if n == 0 then 0
    else ColumnSum(ids, counts, features, cid, t, n - 1) + (if ids[n - 1] == cid then counts[n - 1][t] else 0)
  }

  /** A summed count is zero exactly when no row of the cluster holds the
      token. */
  lemma {:induction false} ColumnSumZero(ids: seq<int>, counts: seq<seq<nat>>, features: seq<string>, cid: int, t: nat, n: nat)
    requires CountMatrix(ids, counts, features) && t < |features| && n <= |ids|
    ensures ColumnSum(ids, counts, features, cid, t, n) == 0 <==>
      forall r | 0 <= r < n && ids[r] == cid :: counts[r][t] == 0
  {
    if n > 0 {
      ColumnSumZero(ids, counts, features, cid, t, n - 1);
    }
  }

  /** `vectorizer.transform(subset).sum(axis=0)`: the cluster's count of
      every token, as the scores `argsort` ranks. */
  function ClusterCounts(ids: seq<int>, counts: seq<seq<nat>>, features: seq<string>, cid: int): (r: seq<real>)
    requires CountMatrix(ids, counts, features)
    ensures |r| == |features|
    ensures forall t | 0 <= t < |features| :: r[t] == ColumnSum(ids, counts, features, cid, t, |ids|) as real
  {
    seq(|features|, t requires 0 <= t < |features| => ColumnSum(ids, counts, features, cid, t, |ids|) as real)
  }

  // ---------------------------------------------------------------------
  // One cluster's label

  /** `counts.argsort()[::-1][:top_n]` with `top_n = 3`. */
  function TopIndices(ids: seq<int>, counts: seq<seq<nat>>, features: seq<string>, cid: int): (r: seq<nat>)
    requires CountMatrix(ids, counts, features)
    ensures InRange(r, |features|) && Distinct(r)
    ensures |r| == if |features| < 3 then |features| else 3
    ensures NonIncreasing(r, ClusterCounts(ids, counts, features, cid))
  {
    var all := Range(|features|);
    assert Distinct(all);
    TopK(all, ClusterCounts(ids, counts, features, cid), 3)
  }

  /** No token left out of a label occurs in the cluster more often than a
      token in it. */
  lemma TopIndicesAreTop(ids: seq<int>, counts: seq<seq<nat>>, features: seq<string>, cid: int, t: nat)
    requires CountMatrix(ids, counts, features)
    requires t < |features| && t !in TopIndices(ids, counts, features, cid)
    ensures forall p | 0 <= p < |TopIndices(ids, counts, features, cid)| ::
      ColumnSum(ids, counts, features, cid, TopIndices(ids, counts, features, cid)[p], |ids|) >=
      ColumnSum(ids, counts, features, cid, t, |ids|)
  {
    var all := Range(|features|);
    assert all[t] == t;
    TopKIsTop(all, ClusterCounts(ids, counts, features, cid), 3, t);
  }

  /** `top_tokens(cid)`: the empty text for a cluster with no rows, else the
      chosen tokens joined by `", "`. */
  function TopTokens(ids: seq<int>, counts: seq<seq<nat>>, features: seq<string>, cid: int): (r: string)
    requires CountMatrix(ids, counts, features)
    ensures !InCluster(ids, cid) ==> r == ""
  {
    if !InCluster(ids, cid) then ""
    else
      var top := TopIndices(ids, counts, features, cid);
      Join(", ", seq(|top|, p requires 0 <= p < |top| => features[top[p]]))
  }

  // ---------------------------------------------------------------------
  // The label table and the label column

  /** `xs` is strictly increasing. */
  predicate Increasing(xs: seq<int>) {
    forall p, q | 0 <= p < q < |xs| :: xs[p] < xs[q]
  }

  /** Adds `x` to a strictly increasing sequence, keeping it so. */
  function InsertSorted(x: int, xs: seq<int>): (r: seq<int>)
    requires Increasing(xs)
    ensures Increasing(r)
    ensures forall c :: c in r <==> c in xs || c == x
    ensures |r| > 0 && (r[0] == x || (|xs| > 0 && r[0] == xs[0]))
  {
    if |xs| == 0 then [x]
    else if x == xs[0] then xs
    else if x < xs[0] then [x] + xs
    else
      assert forall c :: c in xs <==> c == xs[0] || c in xs[1..] by {
        assert xs == [xs[0]] + xs[1..];
      }
      [xs[0]] + InsertSorted(x, xs[1..])
  }

  /** `sorted(df["cluster_id"].unique())`. */
  function SortedIds(ids: seq<int>): (r: seq<int>)
    ensures Increasing(r)
    ensures forall c :: c in r <==> c in ids
  {
    if |ids| == 0 then []
    else
      var init := ids[..|ids| - 1];
      var r := InsertSorted(ids[|ids| - 1], SortedIds(init));
      assert forall c :: c in ids <==> c in init || c == ids[|ids| - 1] by {
        assert ids == init + [ids[|ids| - 1]];
      }
      r
  }

  /** `cluster_labels`: one entry per cluster id, in increasing id order. */
  function LabelTable(ids: seq<int>, counts: seq<seq<nat>>, features: seq<string>): (r: seq<(int, string)>)
    requires CountMatrix(ids, counts, features)
    ensures Keys(r) == SortedIds(ids)
    ensures forall p | 0 <= p < |r| :: r[p].1 == TopTokens(ids, counts, features, r[p].0)
  {
    var cs := SortedIds(ids);
    seq(|cs|, p requires 0 <= p < |cs| => (cs[p], TopTokens(ids, counts, features, cs[p])))
  }

  /** `df["cluster_id"].map(cluster_labels)`. */
  function RowLabels(ids: seq<int>, table: seq<(int, string)>): (r: seq<Option<string>>)
    ensures |r| == |ids|
    ensures forall i | 0 <= i < |ids| :: r[i] == Get(table, ids[i])
  {
    seq(|ids|, i requires 0 <= i < |ids| => Get(table, ids[i]))
  }

  /** `cluster_rules` after clustering: the label table and the label
      column. An empty vocabulary (every text made only of stop words) makes
      the vectorizer raise, modelled as an error. */
  function ClusterRules(ids: seq<int>, counts: seq<seq<nat>>, features: seq<string>): (r: Result<(seq<(int, string)>, seq<Option<string>>)>)
    requires CountMatrix(ids, counts, features)
    ensures r.Err? <==> |features| == 0
  {
    if |features| == 0 then Err("empty vocabulary")
    else
      var table := LabelTable(ids, counts, features);
      Ok((table, RowLabels(ids, table)))
  }

  /** Every row is labelled, and with the name of its own cluster. */
  lemma RowsGetClusterLabel(ids: seq<int>, counts: seq<seq<nat>>, features: seq<string>, i: nat)
    requires CountMatrix(ids, counts, features) && |features| > 0 && i < |ids|
    ensures ClusterRules(ids, counts, features).value.1[i] == Some(TopTokens(ids, counts, features, ids[i]))
  {
    var table := LabelTable(ids, counts, features);
    var cs := SortedIds(ids);
    assert ids[i] in cs;
    var p :| 0 <= p < |cs| && cs[p] == ids[i];
    assert Keys(table)[p] == cs[p];
    assert UniqueKeys(table) by {
      forall a, b | 0 <= a < b < |table|
        ensures table[a].0 != table[b].0
      {
        assert Keys(table)[a] == cs[a] && Keys(table)[b] == cs[b];
      }
    }
    GetUnique(table, p);
  }

  /** The label of a cluster with rows names each chosen token. */
  lemma LabelNamesTopTokens(ids: seq<int>, counts: seq<seq<nat>>, features: seq<string>, cid: int, p: nat)
    requires CountMatrix(ids, counts, features) && InCluster(ids, cid)
    requires p < |TopIndices(ids, counts, features, cid)|
    ensures ContainsText(TopTokens(ids, counts, features, cid), features[TopIndices(ids, counts, features, cid)[p]])
  {
    var top := TopIndices(ids, counts, features, cid);
    var names := seq(|top|, q requires 0 <= q < |top| => features[top[q]]);
    JoinContains(", ", names, p);
  }
}
