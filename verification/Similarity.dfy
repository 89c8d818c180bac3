/**
 * The similarity of two messages (src/messages/MessageSimilarity.cpp): the length of their longest
 * common substring, relative to the longer of them.
 */
module Similarity {
  import opened CodeUnits
  import opened Collections

  /** The `n` units from `i` and from `j` on are the same. */
  predicate Common(a: Text, b: Text, i: nat, j: nat, n: nat) {
    i + n <= |a| && j + n <= |b| && a[i..i + n] == b[j..j + n]
  }

  /** `z` is the length of the longest common substring. */
  ghost predicate IsLongest(a: Text, b: Text, z: nat) {
    && (exists i: nat, j: nat :: Common(a, b, i, j, z))
    && (forall i: nat, j: nat, n: nat :: Common(a, b, i, j, n) ==> n <= z)
  }

  /** The length of the longest common suffix of `a[..x + 1]` and `b[..y + 1]`. */
  function Cell(a: Text, b: Text, x: nat, y: nat): nat
    requires x < |a| && y < |b|
  {
    if a[x] != b[y] then 0 else if x == 0 || y == 0 then 1 else Cell(a, b, x - 1, y - 1) + 1
  }

  lemma {:induction false} CellIsCommon(a: Text, b: Text, x: nat, y: nat)
    requires x < |a| && y < |b|
    ensures Cell(a, b, x, y) <= x + 1 && Cell(a, b, x, y) <= y + 1
    ensures Common(a, b, x + 1 - Cell(a, b, x, y), y + 1 - Cell(a, b, x, y), Cell(a, b, x, y))
  {
    if a[x] == b[y] && x > 0 && y > 0 {
      CellIsCommon(a, b, x - 1, y - 1);
      CommonGrows(a, b, x - Cell(a, b, x - 1, y - 1), y - Cell(a, b, x - 1, y - 1), Cell(a, b, x - 1, y - 1));
    }
  }

  lemma CommonGrows(a: Text, b: Text, i: nat, j: nat, n: nat)
    requires Common(a, b, i, j, n) && i + n < |a| && j + n < |b| && a[i + n] == b[j + n]
    ensures Common(a, b, i, j, n + 1)
  {
    SliceGrows(a, i, i + n);
    SliceGrows(b, j, j + n);
  }

  lemma SliceGrows(t: Text, i: nat, k: nat)
    requires i <= k < |t|
    ensures t[i..k + 1] == t[i..k] + [t[k]]
  {
  }

  lemma {:induction false} CommonIsInCell(a: Text, b: Text, i: nat, j: nat, n: nat)
    requires n > 0 && Common(a, b, i, j, n)
    ensures Cell(a, b, i + n - 1, j + n - 1) >= n
  {
    assert a[i..i + n][n - 1] == b[j..j + n][n - 1];
    if n > 1 {
      assert a[i..i + n][..n - 1] == a[i..i + n - 1] && b[j..j + n][..n - 1] == b[j..j + n - 1];
      CommonIsInCell(a, b, i, j, n - 1);
    }
  }

  /** The cells before `(i, j)`, row by row. */
  predicate Passed(i: nat, j: nat, x: nat, y: nat) {
    x < i || (x == i && y < j)
  }

  /** `z` is the greatest of the cells before `(i, j)`. */
  ghost predicate Greatest(a: Text, b: Text, i: nat, j: nat, z: nat) {
    && (forall x: nat, y: nat :: x < |a| && y < |b| && Passed(i, j, x, y) ==> Cell(a, b, x, y) <= z)
    && (z == 0 || exists x: nat, y: nat :: x < |a| && y < |b| && Cell(a, b, x, y) == z)
  }

  lemma GreatestStep(a: Text, b: Text, i: nat, j: nat, z: nat)
    requires i < |a| && j < |b| && Greatest(a, b, i, j, z)
    ensures Greatest(a, b, i, j + 1, Max(Cell(a, b, i, j), z))
  {
    forall x: nat, y: nat | x < |a| && y < |b| && Passed(i, j + 1, x, y)
      ensures Cell(a, b, x, y) <= Max(Cell(a, b, i, j), z)
    {
      assert Passed(i, j, x, y) || (x == i && y == j);
    }
  }

  lemma GreatestIsLongest(a: Text, b: Text, z: nat)
    requires Greatest(a, b, |a|, 0, z)
    ensures IsLongest(a, b, z)
  {
    forall i: nat, j: nat, n: nat | Common(a, b, i, j, n)
      ensures n <= z
    {
      if n > 0 {
        CommonIsInCell(a, b, i, j, n);
        assert Passed(|a|, 0, i + n - 1, j + n - 1);
      }
    }
    if z == 0 {
      assert Common(a, b, 0, 0, 0);
    } else {
      var x: nat, y: nat :| x < |a| && y < |b| && Cell(a, b, x, y) == z;
      CellIsCommon(a, b, x, y);
      assert Common(a, b, x + 1 - z, y + 1 - z, z);
    }
  }

  /** One cell of the table, from the cell above and to the left. */
  method FillCell(a: Text, b: Text, tree: array2<nat>, i: nat, j: nat, z: nat) returns (greatest: nat)
    requires tree.Length0 == |a| && tree.Length1 == |b| && i < |a| && j < |b|
    requires i > 0 && j > 0 ==> tree[i - 1, j - 1] == Cell(a, b, i - 1, j - 1)
    modifies tree
    ensures tree[i, j] == Cell(a, b, i, j) && greatest == Max(Cell(a, b, i, j), z)
    ensures forall x: nat, y: nat :: x < |a| && y < |b| && (x != i || y != j) ==> tree[x, y] == old(tree[x, y])
  {
    greatest := z;
    if a[i] == b[j] {
      if i == 0 || j == 0 {
        tree[i, j] := 1;
      } else {
        tree[i, j] := tree[i - 1, j - 1] + 1;
      }
      greatest := Max(tree[i, j], z);
    } else {
      tree[i, j] := 0;
    }
  }

  /** The similarity is `z` to `div`. */
  method RelativeSimilarity(a: Text, b: Text) returns (z: nat, div: nat)
    ensures IsLongest(a, b, z)
    ensures div == if z == 0 then 1 else Max(1, Max(|a|, |b|))
  {
    var tree := new nat[|a|, |b|]((i, j) => 0);
    z := 0;
    for i := 0 to |a|
      invariant forall x: nat, y: nat :: x < i && y < |b| ==> tree[x, y] == Cell(a, b, x, y)
      invariant Greatest(a, b, i, 0, z)
    {
      for j := 0 to |b|
        invariant forall x: nat, y: nat :: x < |a| && y < |b| && Passed(i, j, x, y) ==> tree[x, y] == Cell(a, b, x, y)
        invariant Greatest(a, b, i, j, z)
      {
        GreatestStep(a, b, i, j, z);
        assert i > 0 && j > 0 ==> Passed(i, j, i - 1, j - 1);
        z := FillCell(a, b, tree, i, j, z);
      }
    }
    GreatestIsLongest(a, b, z);
    if z == 0 {
      return 0, 1;
    }
    div := Max(1, Max(|a|, |b|));
  }

  // ---- What the similarity means ----

  /** The similarity of two texts is the same in both directions. */
  lemma SimilarityIsSymmetric(a: Text, b: Text, z: nat, z': nat)
    requires IsLongest(a, b, z) && IsLongest(b, a, z')
    ensures z == z'
  {
    var i: nat, j: nat :| Common(a, b, i, j, z);
    var i': nat, j': nat :| Common(b, a, i', j', z');
    assert Common(b, a, j, i, z) && Common(a, b, j', i', z');
  }

  /** It lies between zero and one, is one exactly for equal texts that are not empty, and zero
      exactly for texts without a common unit. */
  lemma SimilarityRange(a: Text, b: Text, z: nat, div: nat)
    requires IsLongest(a, b, z) && div == if z == 0 then 1 else Max(1, Max(|a|, |b|))
    ensures 0 <= z <= div && 1 <= div
    ensures z == div <==> a == b && |a| > 0
    ensures z == 0 <==> forall u: Unit :: u !in a || u !in b
  {
    var i: nat, j: nat :| Common(a, b, i, j, z);
    if a == b {
      assert Common(a, b, 0, 0, |a|);
    }
    if z == div {
      assert a[0..|a|] == a && b[0..|b|] == b;
    }
    forall u: Unit | u in a && u in b
      ensures z > 0
    {
      var k: nat :| k < |a| && a[k] == u;
      var l: nat :| l < |b| && b[l] == u;
      assert a[k..k + 1] == [u] && b[l..l + 1] == [u];
      assert Common(a, b, k, l, 1);
    }
    if z > 0 {
      assert a[i..i + z][0] == b[j..j + z][0];
      assert a[i] in a && a[i] in b;
    }
  }
}
