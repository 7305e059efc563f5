/** Difficulty classification (src/clustering_dificuldade.py). Standardising
    and K-Means are library numerics: their output, one cluster id per
    complete row and one centroid per cluster, is taken as given. What is
    modelled is what the file decides: which rows are clustered, which label
    vocabulary k selects, and how clusters are ranked by centroid score and
    mapped to labels. */
module DifficultyClustering {
  import opened Wrappers
  import opened Sorting

  /** The three feature columns of one CSV row; None for an empty cell. */
  datatype FeatureRow = FeatureRow(
    dailyIntensity: Option<real>, trailDays: Option<real>, effortConcentration: Option<real>)

  predicate Complete(f: FeatureRow) {
    f.dailyIntensity.Some? && f.trailDays.Some? && f.effortConcentration.Some?
  }

  predicate Distinct<T(==)>(s: seq<T>) {
    forall i, j :: 0 <= i < j < |s| ==> s[i] != s[j]
  }

  /** `df[colunas].dropna().index`: positions of the complete rows, ascending. */
  function CompleteIndices(rows: seq<FeatureRow>): (idx: seq<nat>)
    ensures forall j :: 0 <= j < |idx| ==> idx[j] < |rows| && Complete(rows[idx[j]])
    ensures forall i :: 0 <= i < |rows| && Complete(rows[i]) ==> i in idx
    ensures forall j, l :: 0 <= j < l < |idx| ==> idx[j] < idx[l]
  {
    if rows == [] then []
    else
      var init := rows[..|rows| - 1];
      assert forall i :: 0 <= i < |init| ==> init[i] == rows[i];
      CompleteIndices(init) + (if Complete(rows[|rows| - 1]) then [|rows| - 1] else [])
  }

  // ------------------------------------------------------------ vocabulary

  datatype ClassifyError =
    | NoCompleteRows            // StandardScaler's ValueError on an empty sample
    | FitRejected               // K-Means' ValueError: k < 1, or fewer complete rows than k
    | SilhouetteUndefined       // silhouette_score's ValueError on the clustering it is given
    | UnsupportedClusterCount   // the explicit ValueError for k outside 3..5

  /** The label list for k clusters, from lightest to heaviest. */
  function Vocabulary(k: int): (r: Result<seq<string>, ClassifyError>)
    ensures r.Success? <==> 3 <= k <= 5
    ensures r.Success? ==> |r.value| == k && Distinct(r.value)
    ensures r.Success? ==> r.value[0] == "Leve" && r.value[k - 1] == (if k == 3 then "Pesada" else "Extrema")
  {
    if k == 5 then Success(["Leve", "Moderada", "Pesada", "Muito Pesada", "Extrema"])
    else if k == 4 then Success(["Leve", "Moderada", "Pesada", "Extrema"])
    else if k == 3 then Success(["Leve", "Moderada", "Pesada"])
    else Failure(UnsupportedClusterCount)
  }

  // ------------------------------------------------------------ scores and ranking

  function Sum(xs: seq<real>): real {
    if xs == [] then 0.0 else Sum(xs[..|xs| - 1]) + xs[|xs| - 1]
  }

  /** `centroides.sum(axis=1)`: a cluster's score is the sum of its
      standardised centroid coordinates. */
  function Scores(centroids: seq<seq<real>>): (s: seq<real>)
    ensures |s| == |centroids| && forall c :: 0 <= c < |centroids| ==> s[c] == Sum(centroids[c])
  {
    seq(|centroids|, c requires 0 <= c < |centroids| => Sum(centroids[c]))
  }

  function Range(k: nat): (r: seq<nat>)
    ensures |r| == k && forall i :: 0 <= i < k ==> r[i] == i
  {
    seq(k, i requires 0 <= i < k => i)
  }

  /** `p` lists every cluster id 0 .. k-1 exactly once. */
  predicate IsPermutation(p: seq<nat>, k: nat) {
    && |p| == k
    && (forall i :: 0 <= i < k ==> p[i] < k)
    && Distinct(p)
    && (forall c :: 0 <= c < k ==> c in p)
  }

  /** The position at which a permutation lists cluster `c`. */
  lemma PositionOf(p: seq<nat>, k: nat, c: nat) returns (i: nat)
    requires IsPermutation(p, k) && c < k
    ensures i < k && p[i] == c
  {
    assert c in p;
    i :| 0 <= i < |p| && p[i] == c;
  }

  lemma {:induction false} DistinctCountsOnce<T>(s: seq<T>, x: T)
    requires Distinct(s)
    ensures multiset(s)[x] <= 1
  {
    if s != [] {
      var init := s[..|s| - 1];
      assert s == init + [s[|s| - 1]];
      DistinctCountsOnce(init, x);
      if x == s[|s| - 1] {
        assert x !in init;
      }
    }
  }

  /** A sequence with the multiset of 0 .. k-1 is a permutation of it. */
  lemma RangeReordered(r: seq<nat>, k: nat)
    requires multiset(r) == multiset(Range(k))
    ensures IsPermutation(r, k)
  {
    assert |r| == |multiset(r)| == |Range(k)|;
    forall i | 0 <= i < k ensures r[i] < k {
      assert r[i] in multiset(Range(k));
    }
    forall c | 0 <= c < k ensures c in r {
      assert Range(k)[c] == c;
      assert c in multiset(r);
    }
    forall i, j | 0 <= i < j < k ensures r[i] != r[j] {
      if r[i] == r[j] {
        var x := r[i];
        assert r == r[..j] + r[j..];
        assert x in r[..j] && x in r[j..];
        assert multiset(r)[x] == multiset(r[..j])[x] + multiset(r[j..])[x];
        DistinctCountsOnce(Range(k), x);
        assert false;
      }
    }
  }

  /** `scores.argsort()`: cluster ids in ascending score order. */
  function ArgSort(scores: seq<real>): (order: seq<nat>)
    ensures IsPermutation(order, |scores|)
    ensures forall i, j :: 0 <= i < j < |order| ==> scores[order[i]] <= scores[order[j]]
  {
    var key := (c: nat) => if c < |scores| then At(scores[c]) else Missing;
    var order := SortBy(Range(|scores|), key);
    RangeReordered(order, |scores|);
    assert forall i, j :: 0 <= i < j < |order| ==> KeyLe(key(order[i]), key(order[j]));
    order
  }

  /** `{ordem[i]: rotulos[i] for i in range(k)}`; a later pair overwrites an
      earlier one with the same key. */
  function LabelMap(order: seq<nat>, labels: seq<string>): (labelMap: map<nat, string>)
    requires |order| == |labels|
    ensures forall c :: c in labelMap <==> c in order
  {
    if order == [] then map[]
    else
      var n := |order| - 1;
      assert forall i :: 0 <= i < n ==> order[..n][i] == order[i];
      LabelMap(order[..n], labels[..n])[order[n] := labels[n]]
  }

  /** With distinct cluster ids, the cluster at rank i gets label i. */
  lemma {:induction false} LabelMapAt(order: seq<nat>, labels: seq<string>, i: nat)
    requires |order| == |labels| && Distinct(order) && i < |order|
    ensures order[i] in LabelMap(order, labels) && LabelMap(order, labels)[order[i]] == labels[i]
  {
    var n := |order| - 1;
    if i < n {
      assert order[..n][i] == order[i];
      LabelMapAt(order[..n], labels[..n], i);
      assert order[i] != order[n];
    }
  }

  /** When `order` is a permutation of the k cluster ids and the labels are
      distinct, the map is a bijection from the cluster ids onto the labels. */
  lemma LabelMapBijective(order: seq<nat>, labels: seq<string>)
    requires IsPermutation(order, |labels|) && Distinct(labels)
    ensures forall c: nat :: c in LabelMap(order, labels) <==> c < |labels|
    ensures forall c, d :: c in LabelMap(order, labels) && d in LabelMap(order, labels) && c != d ==>
              LabelMap(order, labels)[c] != LabelMap(order, labels)[d]
    ensures forall l :: l in LabelMap(order, labels).Values <==> l in labels
  {
    var labelMap := LabelMap(order, labels);
    var k := |labels|;
    forall c | c in labelMap ensures c < k {
      var i :| 0 <= i < |order| && order[i] == c;
    }
    forall c: nat | c < k ensures c in labelMap {
      assert c in order;
    }
    forall c, d | c in labelMap && d in labelMap && c != d ensures labelMap[c] != labelMap[d] {
      var i := PositionOf(order, k, c);
      var j := PositionOf(order, k, d);
      LabelMapAt(order, labels, i);
      LabelMapAt(order, labels, j);
    }
    forall l | l in labelMap.Values ensures l in labels {
      var c :| c in labelMap && labelMap[c] == l;
      var i := PositionOf(order, k, c);
      LabelMapAt(order, labels, i);
    }
    forall l | l in labels ensures l in labelMap.Values {
      var i :| 0 <= i < |labels| && labels[i] == l;
      LabelMapAt(order, labels, i);
    }
  }

  /** Labels follow scores: a cluster with a lower score gets a label that
      comes earlier in the vocabulary. */
  lemma LabelsFollowScores(scores: seq<real>, labels: seq<string>, c: nat, d: nat)
    requires |labels| == |scores| && Distinct(labels)
    requires c < |scores| && d < |scores| && scores[c] < scores[d]
    ensures var labelMap := LabelMap(ArgSort(scores), labels);
            forall i, j :: 0 <= i < |labels| && 0 <= j < |labels| && labelMap[c] == labels[i] && labelMap[d] == labels[j] ==> i < j
  {
    var order := ArgSort(scores);
    var labelMap := LabelMap(order, labels);
    var ic := PositionOf(order, |scores|, c);
    var id := PositionOf(order, |scores|, d);
    assert ic < id;
    LabelMapAt(order, labels, ic);
    LabelMapAt(order, labels, id);
    forall i, j | 0 <= i < |labels| && 0 <= j < |labels| && labelMap[c] == labels[i] && labelMap[d] == labels[j] ensures i < j {
      assert labels[i] == labels[ic] && labels[j] == labels[id];
    }
  }

  /** The cluster with the strictly lowest score is 'Leve'; the one with the
      strictly highest gets the last label of the vocabulary. */
  lemma ExtremeClusters(scores: seq<real>, lo: nat, hi: nat)
    requires 3 <= |scores| <= 5 && lo < |scores| && hi < |scores|
    requires forall c :: 0 <= c < |scores| && c != lo ==> scores[lo] < scores[c]
    requires forall c :: 0 <= c < |scores| && c != hi ==> scores[c] < scores[hi]
    ensures var labels := Vocabulary(|scores|).value;
            var labelMap := LabelMap(ArgSort(scores), labels);
            labelMap[lo] == "Leve" && labelMap[hi] == labels[|scores| - 1]
  {
    var k := |scores|;
    var order := ArgSort(scores);
    var labels := Vocabulary(k).value;
    var il := PositionOf(order, k, lo);
    var ih := PositionOf(order, k, hi);
    assert scores[order[0]] <= scores[order[il]] || il == 0;
    assert scores[order[ih]] <= scores[order[k - 1]] || ih == k - 1;
    LabelMapAt(order, labels, 0);
    LabelMapAt(order, labels, k - 1);
  }

  // ------------------------------------------------------------ relabelling

  /** Two permutations of the cluster ids both in ascending order of pairwise
      distinct scores are the same permutation. */
  lemma {:induction false} SortedPermutationUnique(a: seq<nat>, b: seq<nat>, scores: seq<real>, n: nat)
    requires IsPermutation(a, |scores|) && IsPermutation(b, |scores|) && Distinct(scores)
    requires forall i, j :: 0 <= i < j < |a| ==> scores[a[i]] <= scores[a[j]]
    requires forall i, j :: 0 <= i < j < |b| ==> scores[b[i]] <= scores[b[j]]
    requires n <= |scores|
    ensures a[..n] == b[..n]
  {
    if n > 0 {
      var m := n - 1;
      SortedPermutationUnique(a, b, scores, m);
      var j := PositionOf(b, |scores|, a[m]);
      var i := PositionOf(a, |scores|, b[m]);
      assert scores[a[m]] <= scores[a[i]];
      assert scores[b[m]] <= scores[b[j]];
      assert a[..n] == a[..m] + [a[m]] && b[..n] == b[..m] + [b[m]];
    }
  }

  /** `perm` applied after `order`. */
  function Compose(perm: seq<nat>, order: seq<nat>): (moved: seq<nat>)
    requires forall i :: 0 <= i < |order| ==> order[i] < |perm|
    ensures |moved| == |order| && forall i :: 0 <= i < |order| ==> moved[i] == perm[order[i]]
  {
    seq(|order|, i requires 0 <= i < |order| => perm[order[i]])
  }

  lemma ComposePermutation(perm: seq<nat>, order: seq<nat>, k: nat)
    requires IsPermutation(perm, k) && IsPermutation(order, k)
    ensures IsPermutation(Compose(perm, order), k)
  {
    var moved := Compose(perm, order);
    forall i, j | 0 <= i < j < k ensures moved[i] != moved[j] {
      assert order[i] != order[j];
    }
    forall c: nat | c < k ensures c in moved {
      var d := PositionOf(perm, k, c);
      var i := PositionOf(order, k, d);
      assert moved[i] == c;
    }
  }

  lemma PermutedDistinct(scores: seq<real>, perm: seq<nat>, scores2: seq<real>)
    requires IsPermutation(perm, |scores|) && Distinct(scores)
    requires |scores2| == |scores| && forall c :: 0 <= c < |scores| ==> scores2[perm[c]] == scores[c]
    ensures Distinct(scores2)
  {
    var k := |scores|;
    forall x, y | 0 <= x < y < k ensures scores2[x] != scores2[y] {
      var c := PositionOf(perm, k, x);
      var d := PositionOf(perm, k, y);
    }
  }

  /** Renaming the cluster ids by a permutation, with the centroids moved
      along, renames the rank order the same way when the scores are
      distinct. */
  lemma ArgSortRelabelled(scores: seq<real>, perm: seq<nat>, scores2: seq<real>)
    requires IsPermutation(perm, |scores|) && Distinct(scores)
    requires |scores2| == |scores| && forall c :: 0 <= c < |scores| ==> scores2[perm[c]] == scores[c]
    ensures ArgSort(scores2) == Compose(perm, ArgSort(scores))
  {
    var k := |scores|;
    var order := ArgSort(scores);
    var moved := Compose(perm, order);
    ComposePermutation(perm, order, k);
    PermutedDistinct(scores, perm, scores2);
    forall i, j | 0 <= i < j < k ensures scores2[moved[i]] <= scores2[moved[j]] {
      assert scores2[moved[i]] == scores[order[i]];
      assert scores2[moved[j]] == scores[order[j]];
    }
    SortedPermutationUnique(moved, ArgSort(scores2), scores2, k);
    assert moved[..k] == moved && ArgSort(scores2)[..k] == ArgSort(scores2);
  }

  /** Each cluster keeps its label when the ids are renamed. */
  lemma RelabelledLabels(scores: seq<real>, perm: seq<nat>, scores2: seq<real>, labels: seq<string>)
    requires IsPermutation(perm, |scores|) && Distinct(scores)
    requires |scores2| == |scores| && forall d :: 0 <= d < |scores| ==> scores2[perm[d]] == scores[d]
    requires |labels| == |scores|
    ensures var labelMap, labelMap2 := LabelMap(ArgSort(scores), labels), LabelMap(ArgSort(scores2), labels);
            forall c :: 0 <= c < |scores| ==> c in labelMap && perm[c] in labelMap2 && labelMap2[perm[c]] == labelMap[c]
  {
    var k := |scores|;
    var order := ArgSort(scores);
    ArgSortRelabelled(scores, perm, scores2);
    forall c | 0 <= c < k
      ensures c in LabelMap(order, labels) && perm[c] in LabelMap(ArgSort(scores2), labels)
      ensures LabelMap(ArgSort(scores2), labels)[perm[c]] == LabelMap(order, labels)[c]
    {
      var i := PositionOf(order, k, c);
      LabelMapAt(order, labels, i);
      LabelMapAt(ArgSort(scores2), labels, i);
    }
  }

  // ------------------------------------------------------------ columns

  /** The cluster column of a table read without one. */
  function NoClusters(n: nat): (col: seq<Option<nat>>)
    ensures |col| == n && forall i :: 0 <= i < n ==> col[i].None?
  {
    seq(n, i => None)
  }

  /** `df.loc[idx, 'cluster'] = values`: the listed rows get their cluster,
      every other row keeps whatever the column held. */
  function ScatterClusters(cluster: seq<Option<nat>>, idx: seq<nat>, values: seq<nat>): (r: seq<Option<nat>>)
    requires |idx| == |values| && forall j :: 0 <= j < |idx| ==> idx[j] < |cluster|
    ensures |r| == |cluster|
    ensures forall i :: 0 <= i < |cluster| && i !in idx ==> r[i] == cluster[i]
    ensures Distinct(idx) ==> forall j :: 0 <= j < |idx| ==> r[idx[j]] == Some(values[j])
  {
    if idx == [] then cluster
    else
      var n := |idx| - 1;
      assert forall j :: 0 <= j < n ==> idx[..n][j] == idx[j];
      ScatterClusters(cluster, idx[..n], values[..n])[idx[n] := Some(values[n])]
  }

  /** `df['cluster'].map(labelMap)`: a row's label is its cluster's entry in the
      map; an empty cell, or an id the map lacks, gives an empty cell. */
  function MapLabels(cluster: seq<Option<nat>>, labelMap: map<nat, string>): (r: seq<Option<string>>)
    ensures |r| == |cluster|
    ensures forall i :: 0 <= i < |cluster| ==> (r[i].Some? <==> cluster[i].Some? && cluster[i].value in labelMap)
    ensures forall i :: 0 <= i < |cluster| && r[i].Some? ==> r[i].value in labelMap.Values
  {
    seq(|cluster|, i requires 0 <= i < |cluster| =>
      if cluster[i].Some? && cluster[i].value in labelMap then Some(labelMap[cluster[i].value]) else None)
  }

  /** The difficulty column for any label vocabulary, from the cluster ids
      of the rows at `idx`. */
  function LabelColumn(n: nat, idx: seq<nat>, clusters: seq<nat>, scores: seq<real>, labels: seq<string>): seq<Option<string>>
    requires |idx| == |clusters| && (forall j :: 0 <= j < |idx| ==> idx[j] < n) && |labels| == |scores|
  {
    MapLabels(ScatterClusters(NoClusters(n), idx, clusters), LabelMap(ArgSort(scores), labels))
  }

  /** The difficulty column a classification run writes into a table that had
      no cluster column. */
  function FreshDifficulty(features: seq<FeatureRow>, k: nat, clusters: seq<nat>, centroids: seq<seq<real>>): seq<Option<string>>
    requires 3 <= k <= 5 && |centroids| == k
    requires |clusters| == |CompleteIndices(features)|
  {
    LabelColumn(|features|, CompleteIndices(features), clusters, Scores(centroids), Vocabulary(k).value)
  }

  /** On a table without a prior cluster column, exactly the rows with all
      three features present get a difficulty. */
  lemma OnlyCompleteRowsLabelled(features: seq<FeatureRow>, k: nat, clusters: seq<nat>, centroids: seq<seq<real>>)
    requires 3 <= k <= 5 && |centroids| == k
    requires |clusters| == |CompleteIndices(features)| && forall j :: 0 <= j < |clusters| ==> clusters[j] < k
    ensures var col := FreshDifficulty(features, k, clusters, centroids);
            forall i :: 0 <= i < |features| ==> (col[i].Some? <==> Complete(features[i]))
  {
    var idx := CompleteIndices(features);
    var column := ScatterClusters(NoClusters(|features|), idx, clusters);
    var labelMap := LabelMap(ArgSort(Scores(centroids)), Vocabulary(k).value);
    forall i | 0 <= i < |features| && Complete(features[i]) ensures column[i].Some? && column[i].value in labelMap {
      var j :| 0 <= j < |idx| && idx[j] == i;
    }
    forall i | 0 <= i < |features| && column[i].Some? ensures Complete(features[i]) {
    }
  }

  /** Scattering renamed cluster ids gives the renamed column. */
  lemma ScatterRelabelled(n: nat, idx: seq<nat>, clusters: seq<nat>, clusters2: seq<nat>, perm: seq<nat>)
    requires |idx| == |clusters| == |clusters2| && Distinct(idx)
    requires forall j :: 0 <= j < |idx| ==> idx[j] < n
    requires forall j :: 0 <= j < |clusters| ==> clusters[j] < |perm| && clusters2[j] == perm[clusters[j]]
    ensures var col, col2 := ScatterClusters(NoClusters(n), idx, clusters), ScatterClusters(NoClusters(n), idx, clusters2);
            forall i :: 0 <= i < n ==>
              (col[i].None? ==> col2[i].None?) &&
              (col[i].Some? ==> col[i].value < |perm| && col2[i] == Some(perm[col[i].value]))
  {
    var col, col2 := ScatterClusters(NoClusters(n), idx, clusters), ScatterClusters(NoClusters(n), idx, clusters2);
    forall i | 0 <= i < n
      ensures (col[i].None? ==> col2[i].None?) && (col[i].Some? ==> col[i].value < |perm| && col2[i] == Some(perm[col[i].value]))
    {
      if i in idx {
        var j :| 0 <= j < |idx| && idx[j] == i;
        assert col[i] == Some(clusters[j]) && col2[i] == Some(clusters2[j]);
      }
    }
  }

  /** Mapping a renamed column through a map renamed the same way gives the
      same labels. */
  lemma MapLabelsRelabelled(col: seq<Option<nat>>, col2: seq<Option<nat>>, labelMap: map<nat, string>, labelMap2: map<nat, string>, perm: seq<nat>)
    requires |col| == |col2|
    requires forall c :: 0 <= c < |perm| ==> c in labelMap && perm[c] in labelMap2 && labelMap2[perm[c]] == labelMap[c]
    requires forall i :: 0 <= i < |col| ==>
               (col[i].None? ==> col2[i].None?) &&
               (col[i].Some? ==> col[i].value < |perm| && col2[i] == Some(perm[col[i].value]))
    ensures MapLabels(col2, labelMap2) == MapLabels(col, labelMap)
  {
    forall i | 0 <= i < |col| ensures MapLabels(col2, labelMap2)[i] == MapLabels(col, labelMap)[i] {
      if col[i].Some? {
        assert col[i].value in labelMap;
      }
    }
  }

  lemma LabelColumnRelabelled(
    n: nat, idx: seq<nat>, clusters: seq<nat>, scores: seq<real>, labels: seq<string>,
    perm: seq<nat>, clusters2: seq<nat>, scores2: seq<real>)
    requires |idx| == |clusters| == |clusters2| && Distinct(idx) && (forall j :: 0 <= j < |idx| ==> idx[j] < n)
    requires |labels| == |scores| && Distinct(scores) && IsPermutation(perm, |scores|)
    requires forall j :: 0 <= j < |clusters| ==> clusters[j] < |perm| && clusters2[j] == perm[clusters[j]]
    requires |scores2| == |scores| && forall c :: 0 <= c < |scores| ==> scores2[perm[c]] == scores[c]
    ensures LabelColumn(n, idx, clusters2, scores2, labels) == LabelColumn(n, idx, clusters, scores, labels)
  {
    RelabelledLabels(scores, perm, scores2, labels);
    ScatterRelabelled(n, idx, clusters, clusters2, perm);
    MapLabelsRelabelled(ScatterClusters(NoClusters(n), idx, clusters),
                        ScatterClusters(NoClusters(n), idx, clusters2),
                        LabelMap(ArgSort(scores), labels), LabelMap(ArgSort(scores2), labels), perm);
  }

  /** Relabelling the clusters (ids permuted, centroids permuted to match)
      leaves every row's difficulty unchanged when the scores are distinct. */
  lemma RelabellingKeepsDifficulty(
    features: seq<FeatureRow>, k: nat, clusters: seq<nat>, centroids: seq<seq<real>>,
    perm: seq<nat>, clusters2: seq<nat>, centroids2: seq<seq<real>>)
    requires 3 <= k <= 5 && |centroids| == k
    requires |clusters| == |CompleteIndices(features)| && forall j :: 0 <= j < |clusters| ==> clusters[j] < k
    requires Distinct(Scores(centroids)) && IsPermutation(perm, k)
    requires |clusters2| == |clusters| && forall j :: 0 <= j < |clusters| ==> clusters2[j] == perm[clusters[j]]
    requires |centroids2| == k && forall c :: 0 <= c < k ==> centroids2[perm[c]] == centroids[c]
    ensures FreshDifficulty(features, k, clusters2, centroids2) == FreshDifficulty(features, k, clusters, centroids)
  {
    var idx := CompleteIndices(features);
    var scores, scores2 := Scores(centroids), Scores(centroids2);
    assert Distinct(idx);
    assert forall c :: 0 <= c < k ==> scores2[perm[c]] == scores[c];
    LabelColumnRelabelled(|features|, idx, clusters, scores, Vocabulary(k).value, perm, clusters2, scores2);
  }

  // ------------------------------------------------------------ library preconditions

  /** K-Means accepts k clusters for n samples when 1 <= k <= n. */
  predicate FitAccepted(n: nat, k: int) {
    1 <= k <= n
  }

  /** The distinct cluster ids a clustering uses. */
  function UsedClusters(clusters: seq<nat>): (used: set<nat>)
    ensures forall c :: c in used <==> c in clusters
    ensures |used| <= |clusters|
  {
    if clusters == [] then {}
    else
      var init := clusters[..|clusters| - 1];
      assert clusters == init + [clusters[|clusters| - 1]];
      UsedClusters(init) + {clusters[|clusters| - 1]}
  }

  /** silhouette_score is defined when the clustering uses at least two and
      at most n - 1 distinct ids for its n samples. */
  predicate SilhouetteDefined(clusters: seq<nat>) {
    2 <= |UsedClusters(clusters)| <= |clusters| - 1
  }

  /** Which of the checks of the classification fails first for n complete
      rows, k clusters and the ids K-Means assigned, if any. */
  function Verdict(n: nat, k: int, clusters: seq<nat>): (r: Outcome<ClassifyError>)
    ensures r.Pass? <==> FitAccepted(n, k) && SilhouetteDefined(clusters) && 3 <= k <= 5
    ensures r == Fail(NoCompleteRows) <==> n == 0
    ensures r == Fail(UnsupportedClusterCount) ==> Vocabulary(k).Failure?
  {
    if n == 0 then Fail(NoCompleteRows)
    else if !FitAccepted(n, k) then Fail(FitRejected)
    else if k > 1 && !SilhouetteDefined(clusters) then Fail(SilhouetteUndefined)
    else if Vocabulary(k).Failure? then Fail(Vocabulary(k).error)
    else Pass
  }

  /** As many rows as clusters, each in its own cluster: K-Means accepts the
      fit, and the silhouette score then raises. */
  lemma OneRowPerClusterRejected()
    ensures FitAccepted(3, 3) && !SilhouetteDefined([0, 1, 2])
  {
    assert UsedClusters([0, 1, 2]) == {0, 1, 2};
  }

  // ------------------------------------------------------------ the table

  /** The table `classificar_dificuldade_kmeans` reads and updates in place. */
  class TrailTable {
    var features: seq<FeatureRow>
    var cluster: seq<Option<nat>>
    var difficulty: seq<Option<string>>

    ghost predicate Valid()
      reads this
    {
      |cluster| == |features| && |difficulty| == |features|
    }

    /** A table as read from CSV: `cluster` and `difficulty` hold the columns
        of those names when the file has them, empty cells otherwise. */
    constructor (features: seq<FeatureRow>, cluster: seq<Option<nat>>, difficulty: seq<Option<string>>)
      requires |cluster| == |features| && |difficulty| == |features|
      ensures Valid()
      ensures this.features == features && this.cluster == cluster && this.difficulty == difficulty
    {
      this.features := features;
      this.cluster := cluster;
      this.difficulty := difficulty;
    }

    /** The in-place part of `classificar_dificuldade_kmeans`, given K-Means'
        cluster id for each complete row and its k centroids (meaningful only
        when the fit is accepted). The library calls raise before the cluster
        column is written when there is no complete row or the fit is
        rejected; the silhouette check and the vocabulary check raise after
        it, so the cluster column is then updated but the difficulty column
        is not. */
    method Classify(k: int, clusters: seq<nat>, centroids: seq<seq<real>>) returns (outcome: Outcome<ClassifyError>)
      requires Valid()
      requires FitAccepted(|CompleteIndices(features)|, k) ==>
                 && |clusters| == |CompleteIndices(features)|
                 && (forall j :: 0 <= j < |clusters| ==> clusters[j] < k)
                 && |centroids| == k
      modifies this
      ensures Valid() && features == old(features)
      ensures outcome == Verdict(|CompleteIndices(features)|, k, clusters)
      ensures cluster == if FitAccepted(|CompleteIndices(features)|, k)
                         then ScatterClusters(old(cluster), CompleteIndices(features), clusters)
                         else old(cluster)
      ensures difficulty == if outcome.Pass?
                            then MapLabels(cluster, LabelMap(ArgSort(Scores(centroids)), Vocabulary(k).value))
                            else old(difficulty)
    {
      var completeRows := CompleteIndices(features);
      if |completeRows| == 0 {
        return Fail(NoCompleteRows);
      }
      if !FitAccepted(|completeRows|, k) {
        return Fail(FitRejected);
      }
      cluster := ScatterClusters(cluster, completeRows, clusters);
      if k > 1 && !SilhouetteDefined(clusters) {
        return Fail(SilhouetteUndefined);
      }
      var labels := Vocabulary(k);
      if labels.Failure? {
        return Fail(labels.error);
      }
      var order := ArgSort(Scores(centroids));
      difficulty := MapLabels(cluster, LabelMap(order, labels.value));
      outcome := Pass;
    }
  }
}
