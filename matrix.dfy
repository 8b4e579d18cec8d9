/**
 * The SimilarityMatrix class: a square table of similarity scores between
 * nodes, one label (a sentence's keyword, or the node number) per node, and
 * the greedy clustering that reads the table.
 */
module Matrix {
  import opened Text
  import opened Keywords
  import opened Scoring
  import opened Clustering

  class SimilarityMatrix {
    var matrix: array2<real>
    var sentences: array<string>

    /**
     * The table is square with one label per node, the labels are pairwise
     * distinct, and the score of (i, j) is the score of (j, i).
     */
    ghost predicate Valid()
      reads this, matrix, sentences
    {
      && matrix.Length0 == matrix.Length1 == sentences.Length
      && NoDups(sentences[..])
      && forall i, j :: 0 <= i < matrix.Length0 && 0 <= j < matrix.Length0 ==> matrix[i, j] == matrix[j, i]
    }

    /**
     * The matrix of size nodes: node i is labelled with the decimal
     * rendering of i, scores 1 on the diagonal and 0 elsewhere.
     */
    constructor OfSize(size: nat)
      ensures Valid() && fresh(matrix) && fresh(sentences)
      ensures matrix.Length0 == size
      ensures forall i :: 0 <= i < size ==> sentences[i] == DecimalString(i)
      ensures forall i, j :: 0 <= i < size && 0 <= j < size ==> matrix[i, j] == if i == j then 1.0 else 0.0
    {
      var m := new real[size, size];
      var s := new string[size];
      for i := 0 to size
        invariant forall p :: 0 <= p < i ==> s[p] == DecimalString(p)
        invariant forall p, q :: 0 <= p < i && 0 <= q < size ==> m[p, q] == if p == q then 1.0 else 0.0
      {
        s[i] := DecimalString(i);
        IdentityRow(m, i);
      }
      forall p, q | 0 <= p < q < size
        ensures s[p] != s[q]
      {
        if s[p] == s[q] {
          DecimalStringInjective(p, q);
        }
      }
      matrix := m;
      sentences := s;
    }

    /** One pass of the size constructor's inner loop: row i gets 1 on the diagonal and 0 elsewhere. */
    static method IdentityRow(m: array2<real>, i: nat)
      requires m.Length0 == m.Length1 && i < m.Length0
      modifies m
      ensures forall q :: 0 <= q < m.Length1 ==> m[i, q] == if i == q then 1.0 else 0.0
      ensures forall p, q :: 0 <= p < m.Length0 && 0 <= q < m.Length1 && p != i ==> m[p, q] == old(m[p, q])
    {
      for j := 0 to m.Length1
        invariant forall q :: 0 <= q < j ==> m[i, q] == if i == q then 1.0 else 0.0
        invariant forall p, q :: 0 <= p < m.Length0 && 0 <= q < m.Length1 && p != i ==> m[p, q] == old(m[p, q])
      {
        if i == j {
          m[i, i] := 1.0;
        } else {
          m[i, j] := 0.0;
        }
      }
    }

    /**
     * The matrix of the keywords of the given lines: one node per distinct
     * keyword, in order of first appearance; 1 on the diagonal; below it,
     * the score of (i, j) is compute(i, j), mirrored above it.
     */
    constructor FromLines(lines: seq<string>, stem: string -> string)
      ensures Valid() && fresh(matrix) && fresh(sentences)
      ensures sentences[..] == Labels(lines)
      ensures forall i :: 0 <= i < sentences.Length ==> Stripped(sentences[i])
      ensures forall i :: 0 <= i < matrix.Length0 ==> matrix[i, i] == 1.0
      ensures forall i, j :: 0 <= j < i < matrix.Length0 ==> matrix[i, j] == Similarity(sentences[i], sentences[j], stem)
    {
      var keywords := CollectKeywords(lines);
      var m, s := Table(keywords, stem);
      matrix := m;
      sentences := s;
    }

    /** The constructor's two loops over fresh arrays: labels, 1 on the diagonal, compute(i, j) below it, mirrored above it. */
    static method Table(keywords: seq<string>, stem: string -> string) returns (m: array2<real>, s: array<string>)
      requires forall k :: 0 <= k < |keywords| ==> Stripped(keywords[k])
      ensures fresh(m) && fresh(s)
      ensures m.Length0 == m.Length1 == |keywords| && s[..] == keywords
      ensures forall i :: 0 <= i < |keywords| ==> m[i, i] == 1.0
      ensures forall i, j :: 0 <= j < i < |keywords| ==> m[i, j] == Similarity(keywords[i], keywords[j], stem)
      ensures forall i, j :: 0 <= i < |keywords| && 0 <= j < |keywords| ==> m[i, j] == m[j, i]
    {
      var size := |keywords|;
      m := new real[size, size];
      s := new string[size];
      FillLower(m, s, keywords, stem);
      Mirror(m);
    }

    /** The constructor's reading loop: each line's keyword, appended unless already present. */
    static method CollectKeywords(lines: seq<string>) returns (keywords: seq<string>)
      ensures keywords == Labels(lines)
    {
      keywords := [];
      for k := 0 to |lines|
        invariant keywords == Distinct(LineKeywords(lines[..k]))
      {
        var keyword := Normalize(lines[k]);
        LineKeywordsSnoc(lines, k);
        DistinctSnoc(LineKeywords(lines[..k]), keyword);
        if keyword !in keywords {
          keywords := keywords + [keyword];
        }
      }
      assert lines[..|lines|] == lines;
    }

    /**
     * The scores compute(p, q) for q < p, row by row. Its link to Similarity
     * is keyed on Similarity terms, so loops over the table do not unfold
     * the score of every cell they mention.
     */
    static ghost function LowerScores(keywords: seq<string>, stem: string -> string): (t: seq<seq<real>>)
      requires forall k :: 0 <= k < |keywords| ==> Stripped(keywords[k])
      ensures |t| == |keywords|
      ensures forall p :: 0 <= p < |t| ==> |t[p]| == p
      ensures forall p, q {:trigger Similarity(keywords[p], keywords[q], stem)} :: 0 <= q < p < |keywords| ==>
                t[p][q] == Similarity(keywords[p], keywords[q], stem)
    {
      seq(|keywords|, p requires 0 <= p < |keywords| =>
        seq(p, q requires 0 <= q < p => Similarity(keywords[p], keywords[q], stem)))
    }

    /** The constructor's first loop: labels, the diagonal, and compute(i, j) below it. */
    static method FillLower(m: array2<real>, s: array<string>, keywords: seq<string>, stem: string -> string)
      requires m.Length0 == m.Length1 == s.Length == |keywords|
      requires forall k :: 0 <= k < |keywords| ==> Stripped(keywords[k])
      modifies m, s
      ensures s[..] == keywords
      ensures forall p :: 0 <= p < |keywords| ==> m[p, p] == 1.0
      ensures forall p, q :: 0 <= q < p < |keywords| ==> m[p, q] == Similarity(keywords[p], keywords[q], stem)
      ensures forall p, q :: 0 <= p < q < |keywords| ==> m[p, q] == old(m[p, q])
    {
      ghost var table := LowerScores(keywords, stem);
      var size := |keywords|;
      for i := 0 to size
        invariant forall p :: 0 <= p < i ==> s[p] == keywords[p]
        invariant forall p :: 0 <= p < i ==> m[p, p] == 1.0
        invariant forall p, q :: 0 <= q < p < i ==> m[p, q] == table[p][q]
        invariant forall p, q :: 0 <= p < q < size ==> m[p, q] == old(m[p, q])
      {
        s[i] := keywords[i];
        FillRow(m, s, keywords, stem, i, table);
      }
      assert s[..] == keywords;
    }

    /** One pass of the first loop's inner loop: row i up to the diagonal. */
    static method FillRow(m: array2<real>, s: array<string>, keywords: seq<string>, stem: string -> string, i: nat,
                          ghost table: seq<seq<real>>)
      requires m.Length0 == m.Length1 == s.Length == |keywords| == |table| && i < |keywords| && |table[i]| == i
      requires forall k :: 0 <= k < |keywords| ==> Stripped(keywords[k])
      requires forall p :: 0 <= p <= i ==> s[p] == keywords[p]
      requires forall q {:trigger Similarity(keywords[i], keywords[q], stem)} :: 0 <= q < i ==>
                 table[i][q] == Similarity(keywords[i], keywords[q], stem)
      modifies m
      ensures m[i, i] == 1.0
      ensures forall q :: 0 <= q < i ==> m[i, q] == table[i][q]
      ensures forall q :: i < q < m.Length1 ==> m[i, q] == old(m[i, q])
      ensures forall p, q :: 0 <= p < m.Length0 && 0 <= q < m.Length1 && p != i ==> m[p, q] == old(m[p, q])
    {
      var size := |keywords|;
      for j := 0 to size
        invariant j > i ==> m[i, i] == 1.0
        invariant forall q :: 0 <= q < j && q < i ==> m[i, q] == table[i][q]
        invariant forall q :: i < q < m.Length1 ==> m[i, q] == old(m[i, q])
        invariant forall p, q :: 0 <= p < m.Length0 && 0 <= q < m.Length1 && p != i ==> m[p, q] == old(m[p, q])
      {
        FillCell(m, s, keywords, stem, i, j, table);
      }
    }

    /** The body of the first loop's inner loop: 1 on the diagonal, compute(i, j) below it, nothing above it. */
    static method FillCell(m: array2<real>, s: array<string>, keywords: seq<string>, stem: string -> string, i: nat, j: nat,
                           ghost table: seq<seq<real>>)
      requires m.Length0 == m.Length1 == s.Length == |keywords| == |table| && i < |keywords| && j < |keywords| && |table[i]| == i
      requires forall k :: 0 <= k < |keywords| ==> Stripped(keywords[k])
      requires forall p :: 0 <= p <= i ==> s[p] == keywords[p]
      requires forall q {:trigger Similarity(keywords[i], keywords[q], stem)} :: 0 <= q < i ==>
                 table[i][q] == Similarity(keywords[i], keywords[q], stem)
      modifies m
      ensures m[i, j] == if i == j then 1.0 else if i > j then table[i][j] else old(m[i, j])
      ensures forall p, q :: 0 <= p < m.Length0 && 0 <= q < m.Length1 && (p, q) != (i, j) ==> m[p, q] == old(m[p, q])
    {
      if i == j {
        m[i, i] := 1.0;
      } else if i > j {
        var score := Compute(s[i], s[j], stem);
        assert score == table[i][j];
        m[i, j] := score;
      }
    }

    /** The constructor's second loop: copies each score below the diagonal to its mirror cell above it. */
    static method Mirror(m: array2<real>)
      requires m.Length0 == m.Length1
      modifies m
      ensures forall p, q :: 0 <= q <= p < m.Length0 ==> m[p, q] == old(m[p, q])
      ensures forall p, q :: 0 <= p < m.Length0 && 0 <= q < m.Length0 ==> m[p, q] == m[q, p]
    {
      var size := m.Length0;
      for i := 0 to size
        invariant forall p, q :: 0 <= q <= p < size ==> m[p, q] == old(m[p, q])
        invariant forall p, q :: 0 <= p < i && p < q < size ==> m[p, q] == m[q, p]
      {
        for j := 0 to size
          invariant forall p, q :: 0 <= q <= p < size ==> m[p, q] == old(m[p, q])
          invariant forall p, q :: 0 <= p < i && p < q < size ==> m[p, q] == m[q, p]
          invariant forall q :: i < q < j ==> m[i, q] == m[q, i]
        {
          if i < j {
            m[i, j] := m[j, i];
          }
        }
      }
    }

    static lemma LineKeywordsSnoc(lines: seq<string>, k: nat)
      requires k < |lines|
      ensures LineKeywords(lines[..k + 1]) == LineKeywords(lines[..k]) + [Keyword(lines[k])]
    {
      assert lines[..k + 1][..k] == lines[..k];
    }

    /** getSize: the number of nodes. */
    function Size(): (n: nat)
      reads this, matrix, sentences
      requires Valid()
      ensures n == matrix.Length0 == matrix.Length1 == sentences.Length
    {
      matrix.Length0
    }

    /** getSimilarity: the score of (i, j), the same as that of (j, i). */
    function GetSimilarity(i: nat, j: nat): (v: real)
      reads this, matrix, sentences
      requires Valid() && i < Size() && j < Size()
      ensures v == matrix[j, i]
    {
      matrix[i, j]
    }

    /** getSentence: the label of node i, which no other node carries. */
    function GetSentence(i: nat): (sentence: string)
      reads this, matrix, sentences
      requires Valid() && i < Size()
      ensures sentence == sentences[i]
      ensures forall k :: 0 <= k < Size() && k != i ==> sentences[k] != sentence
    {
      assert sentences[..][i] == sentences[i];
      assert forall k :: 0 <= k < Size() ==> sentences[..][k] == sentences[k];
      sentences[i]
    }

    /** setSimilarity: stores value at (i, j) and at (j, i), keeping the table symmetric. */
    method SetSimilarity(i: nat, j: nat, value: real)
      requires Valid() && i < Size() && j < Size()
      modifies matrix
      ensures Valid()
      ensures matrix[i, j] == value && matrix[j, i] == value
      ensures forall p, q :: 0 <= p < matrix.Length0 && 0 <= q < matrix.Length1 && !(p == i && q == j) && !(p == j && q == i) ==>
                matrix[p, q] == old(matrix[p, q])
    {
      matrix[j, i] := value;
      matrix[i, j] := value;
    }

    /** The first k scores of row i. */
    ghost function RowPrefix(i: nat, k: nat): (row: seq<real>)
      reads this, matrix
      requires i < matrix.Length0 && k <= matrix.Length1
      ensures |row| == k && forall j :: 0 <= j < k ==> row[j] == matrix[i, j]
    {
      if k == 0 then [] else RowPrefix(i, k - 1) + [matrix[i, k - 1]]
    }

    /** The first k rows of the table. */
    ghost function Rows(k: nat): (rows: seq<seq<real>>)
      reads this, matrix
      requires k <= matrix.Length0
      ensures |rows| == k
      ensures forall i :: 0 <= i < k ==> |rows[i]| == matrix.Length1
      ensures forall i, j :: 0 <= i < k && 0 <= j < matrix.Length1 ==> rows[i][j] == matrix[i, j]
    {
      if k == 0 then [] else Rows(k - 1) + [RowPrefix(k - 1, matrix.Length1)]
    }

    /** The scores as a table of rows: row i holds matrix[i, 0..]. */
    ghost function Scores(): (grid: seq<seq<real>>)
      reads this, matrix
      requires matrix.Length0 == matrix.Length1
      ensures |grid| == matrix.Length0 && Square(grid)
      ensures forall i, j :: 0 <= i < matrix.Length0 && 0 <= j < matrix.Length1 ==> grid[i][j] == matrix[i, j]
    {
      Rows(matrix.Length0)
    }

    /**
     * compareSimilarityWithCluster: 1 when node is in the cluster, otherwise
     * the mean of the scores (m, node) over the members m.
     */
    method CompareSimilarityWithCluster(cluster: seq<nat>, node: nat) returns (value: real)
      requires matrix.Length0 == matrix.Length1 && cluster != [] && node < matrix.Length0
      requires InRange(cluster, matrix.Length0)
      ensures value == Affinity(Scores(), cluster, node)
    {
      ghost var grid := Scores();
      if node in cluster {
        return 1.0;
      }
      var avg := 0.0;
      for k := 0 to |cluster|
        invariant InRange(cluster[..k], |grid|)
        invariant avg == Sum(grid, cluster[..k], node)
      {
        TakeSnoc(cluster, k);
        avg := avg + matrix[cluster[k], node];
      }
      assert cluster[..|cluster|] == cluster;
      value := avg / (|cluster| as real);
    }

    /** getClusters' search for the cluster most similar to node, above the threshold. */
    method FindBest(clusters: seq<seq<nat>>, node: nat, threshold: real, ghost grid: seq<seq<real>>) returns (best: int, bestValue: real)
      requires matrix.Length0 == matrix.Length1 && grid == Scores() && node < |grid|
      requires Clusterable(clusters, |grid|)
      ensures (best, bestValue) == BestIn(grid, clusters, node, threshold)
    {
      best := -1;
      bestValue := 0.0;
      for c := 0 to |clusters|
        invariant (best, bestValue) == BestIn(grid, clusters[..c], node, threshold)
      {
        var value := CompareSimilarityWithCluster(clusters[c], node);
        BestInSnoc(grid, clusters, c, node, threshold);
        if value > threshold && value > bestValue {
          best := c;
          bestValue := value;
        }
      }
      assert clusters[..|clusters|] == clusters;
    }

    /**
     * One pass of getClusters' queue loop: finds the cluster most similar to
     * node above the threshold, then adds node to it or opens a new cluster.
     */
    method PlaceNode(clusters: seq<seq<nat>>, node: nat, threshold: real, ghost grid: seq<seq<real>>) returns (next: seq<seq<nat>>)
      requires matrix.Length0 == matrix.Length1 && grid == Scores() && node < |grid|
      requires Clusterable(clusters, |grid|)
      ensures next == Place(clusters, node, BestIn(grid, clusters, node, threshold).0)
    {
      var best, _ := FindBest(clusters, node, threshold, grid);
      if best == -1 {
        next := clusters + [[node]];
      } else {
        next := clusters[best := clusters[best] + [node]];
      }
    }

    /** The queue getClusters starts from: the nodes 0..n-1 in order. */
    static method Queue(n: nat) returns (toProcess: seq<nat>)
      ensures toProcess == Range(0, n)
    {
      toProcess := [];
      for i := 0 to n
        invariant |toProcess| == i
        invariant forall q :: 0 <= q < i ==> toProcess[q] == q
      {
        toProcess := toProcess + [i];
      }
    }

    /** getClusters: every node, in queue order, joins its best cluster or opens a new one. */
    method GetClusters(threshold: real) returns (clusters: seq<seq<nat>>)
      requires matrix.Length0 == matrix.Length1
      ensures clusters == Clusters(Scores(), threshold)
    {
      ghost var grid := Scores();
      clusters := [];
      var toProcess := Queue(matrix.Length0);
      while toProcess != []
        invariant Clusterable(clusters, |grid|) && InRange(toProcess, |grid|)
        invariant Drain(grid, clusters, toProcess, threshold) == Clusters(grid, threshold)
        decreases |toProcess|
      {
        var node := toProcess[0];
        toProcess := toProcess[1..];
        PlaceClusterable(clusters, node, BestIn(grid, clusters, node, threshold).0, |grid|);
        clusters := PlaceNode(clusters, node, threshold, grid);
      }
    }
  }
}
