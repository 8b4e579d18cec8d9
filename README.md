# SimilarityMatrix in Dafny

This project models the `SimilarityMatrix` class of metis (`prjs/src/SimilarityMatrix.java`). The class turns a list of sentences into nodes, scores every pair of nodes by stemmed word overlap, and groups the nodes into clusters. The model has five modules:

- `Text`: the parts of `java.lang.String` the class relies on: `strip`, removal of `\p{Punct}`, `toLowerCase` (as in the root locale), `split(" ")` with its trailing-empty-string rule, and `"" + i`. Only the ASCII part of each is modelled.
- `Keywords`: sentence normalisation. A line is stripped, its punctuation removed, lower-cased and split on single spaces. Each piece is stripped and duplicate words are dropped, keeping the first occurrence (the `LinkedHashSet`). The words are joined with a space after each, and the result is stripped. That result is the line's keyword. The node labels are the keywords of all lines, each kept where it first appears (the `contains`-guarded `LinkedList`).
- `Scoring`: `compute(i, j)`. A token of B counts as common when its stem equals the stem of some token of A. The score is `common / (|A| + |B| - common)`. The stemmer is a function the caller passes in.
- `Clustering`: `getClusters` as a pure function of the score table. The queue loop is a fold (`Drain`) over the nodes `0..n-1`. `BestIn` is the best-cluster search.
- `Matrix`: the class itself. The fields `matrix` (an `array2<real>`) and `sentences` (an `array<string>`) are updated in place. Its methods carry loop invariants and are proved against the functions above.

Each method of the class ties its result or new state to a specification function. The lemmas beside those functions prove what the class promises:

- the matrix is symmetric and its labels are distinct (the class invariant `Valid`);
- normalising a keyword gives it back unchanged, and, under a default locale that lower-cases `I` to `i`, the case of a line's ASCII letters does not change its keyword;
- the diagonal is 1, and a keyword scored against itself also gives 1;
- a score is positive exactly when some stem is shared;
- a node's average similarity to a cluster lies between its least and greatest score with the members;
- the chosen cluster is the first one with the highest score above the threshold and above 0;
- `getClusters` returns a true partition of the nodes.

In three places the code allows more than a reader might expect, and the model follows the code. Only the second concerns a documented promise, the "scores varying from 0 to 1" of the class comment:

- `setSimilarity(i, i, v)` can change the diagonal, so "the diagonal is 1" is a postcondition of the constructors, not a class invariant.
- A score can exceed 1 when two tokens of B share a stem (`Scoring.ScoreCanExceedOne`). The `[0, 1]` range holds when B's stems are distinct (`Scoring.ScoreAtMostOne`).
- Words are split on single spaces, not on any white space. An empty word between two spaces survives inside a keyword. There is no guard for a zero denominator, and none is needed: a keyword is stripped, so it always splits into at least one token.

## Model

| member | source | states |
|---|---|---|
| Text.Strip | prjs/src/SimilarityMatrix.java:46 | the result has no white space at either end, and a string that already has none is returned unchanged |
| Text.StripIdempotent | prjs/src/SimilarityMatrix.java:58 | stripping twice is the same as stripping once |
| Text.RemovePunct | prjs/src/SimilarityMatrix.java:48 | a character is in the result exactly when it is in the input and is not punctuation |
| Text.RemovePunctAppend | prjs/src/SimilarityMatrix.java:48 | removing punctuation is a filter: it distributes over concatenation |
| Text.RemovePunctChar | prjs/src/SimilarityMatrix.java:48 | a single character is dropped exactly when it is punctuation and kept otherwise |
| Text.RemovePunctPlain | prjs/src/SimilarityMatrix.java:48 | a string without punctuation is left unchanged |
| Text.Lower | prjs/src/SimilarityMatrix.java:50 | an upper-case letter becomes its lower-case letter (code + 32); every other character is unchanged; the result is never upper-case |
| Text.LowerCase | prjs/src/SimilarityMatrix.java:50 | same length, each character lower-cased in place, no upper-case letter left, punctuation and spaces at the same positions, lower-case input unchanged |
| Text.LowerCaseUpToCase | prjs/src/SimilarityMatrix.java:50 | strings that differ only in the case of their letters lower-case to the same string |
| Text.RemovePunctUpToCase | prjs/src/SimilarityMatrix.java:48-50 | removing punctuation keeps two strings that differ only in case so related |
| Text.StripUpToCase | prjs/src/SimilarityMatrix.java:46-50 | stripping keeps two strings that differ only in case so related |
| Text.SplitOnSpace | prjs/src/SimilarityMatrix.java:53 | no piece holds a space; a string not starting with a space gives at least one piece; a non-empty string gives its pieces between single spaces minus the trailing empty ones |
| Text.SplitOnSpaceRejoin | prjs/src/SimilarityMatrix.java:164-170 | splitting a non-empty string that does not end in a space and joining the pieces with single spaces gives the string back |
| Text.DecimalString | prjs/src/SimilarityMatrix.java:28 | the rendering of a number is a non-empty string of decimal digits with no leading zero; it starts with 0 exactly for 0 |
| Text.DecimalStringInjective | prjs/src/SimilarityMatrix.java:28 | distinct node numbers get distinct labels |
| Keywords.Distinct | prjs/src/SimilarityMatrix.java:52-54 | the result has no duplicates and holds exactly the elements of the input |
| Keywords.DistinctInOrder | prjs/src/SimilarityMatrix.java:52-56 | the kept elements are in the order of their first occurrence in the input |
| Keywords.Pieces | prjs/src/SimilarityMatrix.java:46-53 | every piece that split(" ") makes of the stripped, punctuation-free, lower-cased line is plain and holds no space |
| Keywords.StripEach | prjs/src/SimilarityMatrix.java:53-54 | one word per piece, in order: word k is piece k stripped, and every word is clean |
| Keywords.Words | prjs/src/SimilarityMatrix.java:46-54 | every word of a line is stripped and holds no space, punctuation or upper-case letter |
| Keywords.JoinWordsAppend | prjs/src/SimilarityMatrix.java:55-57 | one more word through the join loop appends that word and one space |
| Keywords.JoinWordsIntercalate | prjs/src/SimilarityMatrix.java:55-57 | the joined words are the words separated by single spaces, plus one trailing space |
| Keywords.Keyword | prjs/src/SimilarityMatrix.java:46-58 | a keyword is stripped and holds no punctuation or upper-case letter |
| Keywords.KeywordTokens | prjs/src/SimilarityMatrix.java:55-58 | splitting a keyword on spaces gives back the line's distinct words in first-occurrence order, minus an empty first or last word (or the one empty token); the tokens have no duplicates |
| Keywords.Normalize | prjs/src/SimilarityMatrix.java:46-58 | the loop over one line builds exactly that line's keyword |
| Keywords.KeywordIdempotent | prjs/src/SimilarityMatrix.java:46-58 | normalising a keyword gives it back unchanged |
| Keywords.WordsOfKeyword | prjs/src/SimilarityMatrix.java:46-54 | the words of a keyword are exactly its tokens: a second pass removes no punctuation, case, space or duplicate |
| Keywords.KeywordUpToCase | prjs/src/SimilarityMatrix.java:46-58 | lines that differ only in the case of their letters have the same keyword |
| Keywords.LineKeywords | prjs/src/SimilarityMatrix.java:44-61 | one keyword per line: entry k is the keyword of line k |
| Keywords.LineKeywordsMembers | prjs/src/SimilarityMatrix.java:44-61 | every line's keyword is among the line keywords, and every one of them is stripped |
| Keywords.Labels | prjs/src/SimilarityMatrix.java:44-61 | the labels have no duplicates; each line's keyword is among them; each label is a stripped keyword of some line |
| Scoring.Common | prjs/src/SimilarityMatrix.java:167-181 | the common count is at most the number of B's tokens |
| Scoring.CommonPositive | prjs/src/SimilarityMatrix.java:167-181 | the common count is positive exactly when some token of B has its stem among A's stems |
| Scoring.Score | prjs/src/SimilarityMatrix.java:164-182 | a score is non-negative, and positive exactly when A and B share a stem |
| Scoring.Similarity | prjs/src/SimilarityMatrix.java:161-183 | the score of two keywords is defined for any B, because a stripped A has at least one token, and it is non-negative |
| Scoring.SelfSimilarity | prjs/src/SimilarityMatrix.java:161-183 | a keyword scored against itself gives exactly 1, the value the diagonal holds |
| Scoring.ScoreAtMostOne | prjs/src/SimilarityMatrix.java:161-183 | when the stems of B's tokens are pairwise distinct, the score is at most 1 |
| Scoring.ScoreCanExceedOne | prjs/src/SimilarityMatrix.java:161-183 | with a stemmer that merges words, A = "x" and B = "y z" score 2 |
| Scoring.FindStem | prjs/src/SimilarityMatrix.java:169-176 | the inner loop reports exactly whether B's token has the stem of some token of A |
| Scoring.CountCommon | prjs/src/SimilarityMatrix.java:167-181 | the counting loop ends with the common count of B's tokens and a total of the number of tokens of A plus that of B minus that count |
| Scoring.Compute | prjs/src/SimilarityMatrix.java:161-183 | the counting loop returns the score of the two keywords |
| Clustering.Place | prjs/src/SimilarityMatrix.java:207-215 | the node joins the chosen cluster, or a new cluster appended at the end; every other cluster is unchanged and no member is lost |
| Clustering.PlacePartition | prjs/src/SimilarityMatrix.java:207-215 | placing node k into a partition of the nodes below k gives a partition of the nodes below k + 1 |
| Clustering.Affinity | prjs/src/SimilarityMatrix.java:146-153 | 1 for a member; for any other node, the value whose product with the cluster's size is the sum of the node's scores with the members (their mean) |
| Clustering.AffinityBounds | prjs/src/SimilarityMatrix.java:146-153 | a node's average similarity to a cluster it is not in lies between its least and its greatest score with the members |
| Clustering.BestIn | prjs/src/SimilarityMatrix.java:198-206 | the choice is -1 or a cluster index; its value is 0 for -1 and that cluster's average similarity otherwise |
| Clustering.BestInChoice | prjs/src/SimilarityMatrix.java:198-206 | no cluster is chosen only when none scores above both the threshold and 0; a chosen cluster scores above both, strictly above every earlier cluster and at least as high as every later one |
| Clustering.PlaceClusterable | prjs/src/SimilarityMatrix.java:207-215 | after placing, every cluster is non-empty and holds only valid nodes |
| Clustering.Range | prjs/src/SimilarityMatrix.java:192-194 | the queue holds the nodes k..n-1 in ascending order |
| Clustering.RangeMembers | prjs/src/SimilarityMatrix.java:192-194 | the queue holds exactly the nodes k..n-1 |
| Clustering.Drain | prjs/src/SimilarityMatrix.java:195-216 | the queue loop keeps every cluster non-empty and in range, adds at most one cluster per node, never removes a member, and leaves every queued node in some cluster |
| Clustering.Clusters | prjs/src/SimilarityMatrix.java:190-218 | at most n non-empty clusters of valid nodes, and every node is in one |
| Clustering.DrainPartition | prjs/src/SimilarityMatrix.java:195-216 | draining the queue of the nodes k..n-1 into a partition of the nodes below k gives a partition of all n nodes |
| Clustering.ClustersPartition | prjs/src/SimilarityMatrix.java:190-218 | the clusters partition the nodes: each cluster is non-empty and ascending, no node is in two clusters, every node is in one |
| Matrix.SimilarityMatrix.OfSize | prjs/src/SimilarityMatrix.java:24-35 | n by n, node i labelled with the decimal rendering of i, 1 on the diagonal and 0 elsewhere; symmetric with distinct labels |
| Matrix.SimilarityMatrix.IdentityRow | prjs/src/SimilarityMatrix.java:29-33 | row i gets 1 on the diagonal and 0 elsewhere; every other row is unchanged |
| Matrix.SimilarityMatrix.FromLines | prjs/src/SimilarityMatrix.java:42-77 | the labels are the lines' distinct keywords in first-seen order; 1 on the diagonal; below it, the score of (i, j) is compute(i, j); symmetric |
| Matrix.SimilarityMatrix.Table | prjs/src/SimilarityMatrix.java:62-76 | fresh arrays holding the labels, 1 on the diagonal, the similarity of keywords i and j below it, and the same score at (j, i) |
| Matrix.SimilarityMatrix.CollectKeywords | prjs/src/SimilarityMatrix.java:44-61 | the reading loop yields the node labels of the lines |
| Matrix.SimilarityMatrix.FillLower | prjs/src/SimilarityMatrix.java:65-72 | labels set from the keywords, 1 on the diagonal, the similarity of keywords p and q (compute(p, q)) below it, the cells above it unchanged |
| Matrix.SimilarityMatrix.FillRow | prjs/src/SimilarityMatrix.java:67-71 | row i gets 1 on the diagonal and compute(i, q) for every q below i, its cells above the diagonal are unchanged; other rows unchanged |
| Matrix.SimilarityMatrix.FillCell | prjs/src/SimilarityMatrix.java:68-71 | cell (i, j) gets 1 on the diagonal and compute(i, j) below it, and stays unchanged above it; every other cell is unchanged |
| Matrix.SimilarityMatrix.Mirror | prjs/src/SimilarityMatrix.java:73-76 | the lower triangle and the diagonal are unchanged and the table becomes symmetric |
| Matrix.SimilarityMatrix.Size | prjs/src/SimilarityMatrix.java:83-85 | the number of rows, which equals the number of columns and of labels |
| Matrix.SimilarityMatrix.SetSimilarity | prjs/src/SimilarityMatrix.java:93-95 | (i, j) and (j, i) hold the value, every other cell is unchanged, and the class invariant is kept |
| Matrix.SimilarityMatrix.GetSimilarity | prjs/src/SimilarityMatrix.java:103-105 | the score of (i, j) equals that of (j, i) |
| Matrix.SimilarityMatrix.GetSentence | prjs/src/SimilarityMatrix.java:112-114 | the label of node i, which no other node carries |
| Matrix.SimilarityMatrix.Scores | prjs/src/SimilarityMatrix.java:17 | the table as a square grid of rows holding the same scores |
| Matrix.SimilarityMatrix.CompareSimilarityWithCluster | prjs/src/SimilarityMatrix.java:146-153 | returns the node's average similarity to the cluster (1 for a member) |
| Matrix.SimilarityMatrix.FindBest | prjs/src/SimilarityMatrix.java:198-206 | the search over the clusters returns BestIn's choice and value, so by BestInChoice it picks the first cluster with the highest average similarity above the threshold and above 0 |
| Matrix.SimilarityMatrix.PlaceNode | prjs/src/SimilarityMatrix.java:196-215 | one pass of the queue loop places the node as BestIn and Place prescribe |
| Matrix.SimilarityMatrix.Queue | prjs/src/SimilarityMatrix.java:192-194 | the queue holds the nodes 0..n-1 in order |
| Matrix.SimilarityMatrix.GetClusters | prjs/src/SimilarityMatrix.java:190-218 | the clusters are those of the clustering function on the current table, so by ClustersPartition they partition the nodes |

Three definitions without a contract of their own are specified through the rows above: `Keywords.JoinWords` (the loop that appends each word and a space, lines 55-57) through `JoinWordsAppend`, `JoinWordsIntercalate` and `Keyword`; `Clustering.Sum` (the loop that adds up the members' scores, lines 149-151) through `Affinity`, `AffinityBounds` and `CompareSimilarityWithCluster`; and the class invariant `Matrix.SimilarityMatrix.Valid` through the constructors and `SetSimilarity`, which establish and keep it.

## Left out

- Reading the file (`Scanner`, `FileInputStream`, `FileNotFoundException`) is not modelled. `FromLines` takes the lines the reading loop delivers. `hasNext` skips trailing blank input; that is the caller's concern here.
- The `Stemmer` class is not part of this model. `stem` is a function parameter, so the stemmer is assumed to act as a pure function of the word it is given.
- `Text`: white space, punctuation and case are modelled for ASCII only. Unicode white space and letters outside ASCII are not covered.
- `Text.Lower`: models `toLowerCase(Locale.ROOT)`. Line 50 calls `toLowerCase()`, which uses the JVM's default locale, so the model assumes a default locale that lower-cases `I` to `i`. Under a Turkish or Azerbaijani locale, `I` becomes the dotless `ı` (U+0131), and `Text.LowerCase`, `Keywords.Keyword` and `Keywords.KeywordUpToCase` do not describe that run.
- `toString` (lines 120-138) is not modelled. It is diagnostic text formatting.
- Scores are `real`, not IEEE doubles. Rounding is not modelled, and neither is the NaN that `compareSimilarityWithCluster` would return for an empty cluster. `getClusters` never passes an empty cluster, and `CompareSimilarityWithCluster` requires a non-empty one.
- `Matrix.SimilarityMatrix.OfSize`: `size` is a `nat`. The `NegativeArraySizeException` for a negative size is not modelled, and neither is `int` overflow.
- `Matrix.SimilarityMatrix.GetSimilarity`, `GetSentence`, `SetSimilarity`: indices are required to be in range. The `ArrayIndexOutOfBoundsException` thrown otherwise is not modelled.
- The matrix is a two-dimensional array, not a Java array of row arrays. Aliasing between rows cannot arise in the class and is not modelled.
- Clusters are values (`seq<seq<nat>>`), not shared `LinkedList` objects. `bestCluster.add(node)` is modelled as replacing that cluster in the list. Nothing else holds a reference to a cluster during the loop, so no behaviour is lost.
- `Matrix.SimilarityMatrix.GetClusters` requires only a square table, not the class invariant. It is proved for any scores, including tables changed by `setSimilarity`.
- `Scoring.ScoreAtMostOne`: is weaker than the `[0, 1]` range the class documentation states. The bound holds only when the stems of B's tokens are distinct, and `Scoring.ScoreCanExceedOne` shows a score of 2 otherwise.
- `Matrix.SimilarityMatrix.Valid`: does not include "the diagonal is 1". `setSimilarity(i, i, v)` can overwrite the diagonal. Both constructors ensure a diagonal of 1.
- `prjs/src/SimilarityMatrixDriver.java`, the command-line driver, is not part of this model.
