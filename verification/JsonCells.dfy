/** Where the cells of multi-dimensional arrays live, in the struct and in the tree. */
module JsonCells {
  import opened Alignment
  import opened Bytes
  import opened JsonSchema
  import opened Options

  /** ARRAY, ARRAY2 and ARRAY3: T name[d1][d2][d3]. */
  function Nest(e: Type, dims: seq<nat>): Type
  {
    if dims == [] then e else Array(Nest(e, dims[1..]), dims[0])
  }

  function Prod(dims: seq<nat>): nat
  {
    if dims == [] then 1 else dims[0] * Prod(dims[1..])
  }

  ghost predicate InRange(dims: seq<nat>, path: seq<nat>)
  {
    |path| == |dims| && forall i :: 0 <= i < |dims| ==> path[i] < dims[i]
  }

  /** The row-major number of a cell. */
  function RowMajor(dims: seq<nat>, path: seq<nat>): nat
    requires |path| == |dims|
  {
    if dims == [] then 0 else path[0] * Prod(dims[1..]) + RowMajor(dims[1..], path[1..])
  }

  /** For three dimensions: (j1 * d2 + j2) * d3 + j3. */
  lemma RowMajorOfThree(d1: nat, d2: nat, d3: nat, j1: nat, j2: nat, j3: nat)
    ensures RowMajor([d1, d2, d3], [j1, j2, j3]) == (j1 * d2 + j2) * d3 + j3
  {
    var dims, path := [d1, d2, d3], [j1, j2, j3];
    assert dims[1..] == [d2, d3] && dims[1..][1..] == [d3] && dims[1..][1..][1..] == [];
    assert path[1..] == [j2, j3] && path[1..][1..] == [j3];
    assert Prod([d3]) == d3 && Prod([d2, d3]) == d2 * d3;
    assert RowMajor([d3], [j3]) == j3;
    assert RowMajor([d2, d3], [j2, j3]) == j2 * d3 + j3;
    assert j1 * (d2 * d3) == (j1 * d2) * d3;
    assert (j1 * d2 + j2) * d3 == (j1 * d2) * d3 + j2 * d3;
  }

  /** Every cell has a number below the number of cells. */
  lemma {:induction false} RowMajorBound(dims: seq<nat>, path: seq<nat>)
    requires InRange(dims, path)
    ensures RowMajor(dims, path) < Prod(dims)
  {
    if dims != [] {
      RowMajorBound(dims[1..], path[1..]);
      MulLess(path[0], dims[0], Prod(dims[1..]));
    }
  }

  /** No two cells share a number. */
  lemma {:induction false} RowMajorInjective(dims: seq<nat>, p: seq<nat>, q: seq<nat>)
    requires InRange(dims, p) && InRange(dims, q) && RowMajor(dims, p) == RowMajor(dims, q)
    ensures p == q
  {
    if dims != [] {
      var n := Prod(dims[1..]);
      RowMajorBound(dims[1..], p[1..]);
      RowMajorBound(dims[1..], q[1..]);
      ModUnique(RowMajor(dims, p), n, p[0], RowMajor(dims[1..], p[1..]));
      ModUnique(RowMajor(dims, q), n, q[0], RowMajor(dims[1..], q[1..]));
      RowMajorInjective(dims[1..], p[1..], q[1..]);
      assert p == [p[0]] + p[1..] && q == [q[0]] + q[1..];
    }
  }

  /** And every number below the number of cells is some cell's. */
  lemma {:induction false} RowMajorOnto(dims: seq<nat>, n: nat) returns (path: seq<nat>)
    requires n < Prod(dims)
    ensures InRange(dims, path) && RowMajor(dims, path) == n
  {
    if dims == [] {
      path := [];
    } else {
      var m := Prod(dims[1..]);
      QuotientBound(n, dims[0], m);
      var j, r := n / m, n % m;
      Division(n, m);
      var rest := RowMajorOnto(dims[1..], r);
      path := [j] + rest;
      assert path[1..] == rest;
    }
  }

  lemma {:induction false} NestSize(e: Type, dims: seq<nat>)
    ensures Size(Nest(e, dims)) == Prod(dims) * Size(e)
    ensures LaidOut(Nest(e, dims)) <==> LaidOut(e)
  {
    if dims != [] {
      NestSize(e, dims[1..]);
      MulAssoc(dims[0], Prod(dims[1..]), Size(e));
    }
  }

  /** Where element i of k starts, and where the last one does. */
  lemma ItemBounds(i: nat, k: nat, s: nat) returns (o: nat, m: nat)
    requires i < k
    ensures o == i * s && m == (k - 1) * s && m + s == k * s
    ensures if i < k - 1 then o + s <= m else o == m
  {
    ElementBounds(s, k);
    o, m := i * s, (k - 1) * s;
    if i < k - 1 {
      MulLess(i, k - 1, s);
    }
  }

  lemma ArraySize(ty: Type)
    requires ty.Array?
    ensures Size(ty) == ty.dim * Size(ty.elem)
  {
  }

  /** Element i of an array is bound from and to its own bytes. */
  lemma {:induction false} ItemAt(ty: Type, k: nat, b: seq<byte>, i: nat)
    requires LaidOut(ty) && ty.Array? && LaidOut(ty.elem) && |b| == k * Size(ty.elem) && i < k
    ensures i * Size(ty.elem) + Size(ty.elem) <= |b|
    ensures ToItems(ty, k, b)[i] == ToJson(ty.elem, b[i * Size(ty.elem)..i * Size(ty.elem) + Size(ty.elem)])
    decreases k
  {
    hide ToJson, LaidOut, Size;
    var s := Size(ty.elem);
    var o, m := ItemBounds(i, k, s);
    ToItemsMore(ty, k, b, m);
    if i < k - 1 {
      ItemAt(ty, k - 1, b[..m], i);
      assert b[..m][o..o + s] == b[o..o + s];
    } else {
      assert b[m..] == b[o..o + s];
    }
  }

  lemma ToItemsMore(ty: Type, k: nat, b: seq<byte>, m: nat)
    requires ty.Array? && LaidOut(ty) && LaidOut(ty.elem) && k > 0
    requires |b| == k * Size(ty.elem) && m == (k - 1) * Size(ty.elem) && m + Size(ty.elem) == |b|
    ensures ToItems(ty, k, b) == ToItems(ty, k - 1, b[..m]) + [ToJson(ty.elem, b[m..])]
  {
  }

  lemma {:induction false} ItemBound(ty: Type, k: nat, items: seq<Json>, b: seq<byte>, i: nat)
    requires LaidOut(ty) && ty.Array? && LaidOut(ty.elem) && |b| == k * Size(ty.elem) && i < k
    ensures i * Size(ty.elem) + Size(ty.elem) <= |b|
    ensures FromItems(ty, k, items, b)[i * Size(ty.elem)..i * Size(ty.elem) + Size(ty.elem)]
      == FromJson(ty.elem, GetArrayItem(items, i), b[i * Size(ty.elem)..i * Size(ty.elem) + Size(ty.elem)])
    decreases k
  {
    hide FromJson, FromItems, LaidOut, Size;
    var s, r := Size(ty.elem), FromItems(ty, k, items, b);
    var o, m := ItemBounds(i, k, s);
    FromItemsMore(ty, k, items, b, m);
    var front := FromItems(ty, k - 1, items, b[..m]);
    if i < k - 1 {
      ItemBound(ty, k - 1, items, b[..m], i);
      assert b[..m][o..o + s] == b[o..o + s];
      assert r[o..o + s] == front[o..o + s];
    } else {
      assert b[m..] == b[o..o + s];
      assert r[o..o + s] == r[m..];
    }
  }

  lemma FromItemsMore(ty: Type, k: nat, items: seq<Json>, b: seq<byte>, m: nat)
    requires ty.Array? && LaidOut(ty) && LaidOut(ty.elem) && k > 0
    requires |b| == k * Size(ty.elem) && m == (k - 1) * Size(ty.elem) && m + Size(ty.elem) == |b|
    ensures FromItems(ty, k, items, b)
      == FromItems(ty, k - 1, items, b[..m]) + FromJson(ty.elem, GetArrayItem(items, k - 1), b[m..])
  {
  }

  /** The tree's cell at a path, if every list on the way is there and long enough. */
  function At(j: Option<Json>, path: seq<nat>): Option<Json>
    decreases |path|
  {
    if path == [] then j
    else if j.None? || !j.value.List? then None
    else At(GetArrayItem(j.value.items, path[0]), path[1..])
  }

  lemma SubSlice(b: seq<byte>, at: nat, n: nat, off: nat, m: nat)
    requires at + n <= |b| && off + m <= n
    ensures b[at..at + n][off..off + m] == b[at + off..at + off + m]
  {
    var l, r := b[at..at + n][off..off + m], b[at + off..at + off + m];
    forall i | 0 <= i < m ensures l[i] == r[i] {
    }
  }

  /** The byte offset of a cell, level by level: what the walk adds up. */
  function Offset(e: Type, dims: seq<nat>, path: seq<nat>): nat
    requires |path| == |dims|
  {
    if dims == [] then 0 else Start(e, dims, path) + Offset(e, dims[1..], path[1..])
  }

  /** Where element path[0] of the outermost level starts. */
  function Start(e: Type, dims: seq<nat>, path: seq<nat>): nat
    requires |path| == |dims| > 0
  {
    path[0] * Size(Nest(e, dims[1..]))
  }

  lemma StartInside(e: Type, dims: seq<nat>, path: seq<nat>)
    requires InRange(dims, path) && dims != []
    ensures Start(e, dims, path) + Size(Nest(e, dims[1..])) <= Size(Nest(e, dims))
  {
    MulLess(path[0], dims[0], Size(Nest(e, dims[1..])));
  }

  /** It is the row-major number times the element size. */
  lemma {:induction false} OffsetRowMajor(e: Type, dims: seq<nat>, path: seq<nat>)
    requires |path| == |dims|
    ensures Offset(e, dims, path) == RowMajor(dims, path) * Size(e)
  {
    if dims != [] {
      OffsetRowMajor(e, dims[1..], path[1..]);
      NestSize(e, dims[1..]);
      Distribute(path[0], Prod(dims[1..]), RowMajor(dims[1..], path[1..]), Size(e));
    }
  }

  lemma Distribute(i: nat, n: nat, r: nat, z: nat)
    ensures (i * n + r) * z == i * (n * z) + r * z
  {
    MulAssoc(i, n, z);
    assert (i * n + r) * z == (i * n) * z + r * z;
  }

  /** The cell's bytes. */
  function Cell(e: Type, dims: seq<nat>, path: seq<nat>, b: seq<byte>): (r: seq<byte>)
    requires InRange(dims, path) && |b| == Size(Nest(e, dims))
    ensures |r| == Size(e)
  {
    CellInside(e, dims, path);
    b[Offset(e, dims, path)..Offset(e, dims, path) + Size(e)]
  }

  lemma {:induction false} CellInside(e: Type, dims: seq<nat>, path: seq<nat>)
    requires InRange(dims, path)
    ensures Offset(e, dims, path) + Size(e) <= Size(Nest(e, dims))
  {
    if dims != [] {
      CellInside(e, dims[1..], path[1..]);
      MulLess(path[0], dims[0], Size(Nest(e, dims[1..])));
    }
  }

  lemma CellOfWhole(e: Type, b: seq<byte>)
    requires |b| == Size(e)
    ensures Cell(e, [], [], b) == b
  {
  }

  /** A cell is a cell of the element it lies in. */
  lemma CellOfElement(e: Type, dims: seq<nat>, path: seq<nat>, b: seq<byte>)
    requires InRange(dims, path) && dims != [] && |b| == Size(Nest(e, dims))
    ensures var s, o := Size(Nest(e, dims[1..])), Start(e, dims, path);
      && o + s <= |b|
      && Cell(e, dims, path, b) == Cell(e, dims[1..], path[1..], b[o..o + s])
  {
    hide Size, Nest, Start;
    StartInside(e, dims, path);
    CellInside(e, dims[1..], path[1..]);
    SubSlice(b, Start(e, dims, path), Size(Nest(e, dims[1..])), Offset(e, dims[1..], path[1..]), Size(e));
  }

  /** To JSON: the cell at (j1, ..., jk) of the tree is the element at its row-major offset. */
  lemma {:induction false} CellToJson(e: Type, dims: seq<nat>, b: seq<byte>, path: seq<nat>)
    requires LaidOut(Nest(e, dims)) && LaidOut(e) && InRange(dims, path) && |b| == Size(Nest(e, dims))
    ensures At(Some(ToJson(Nest(e, dims), b)), path) == Some(ToJson(e, Cell(e, dims, path, b)))
    decreases |dims|
  {
    hide ToJson, ToItems, LaidOut, Size, Cell, Start;
    if dims == [] {
      CellOfWhole(e, b);
    } else {
      var o := Start(e, dims, path);
      var s := Size(Nest(e, dims[1..]));
      ElementToItems(e, dims, b, path);
      CellToJson(e, dims[1..], b[o..o + s], path[1..]);
      CellOfElement(e, dims, path, b);
    }
  }

  lemma ElementToItems(e: Type, dims: seq<nat>, b: seq<byte>, path: seq<nat>)
    requires LaidOut(Nest(e, dims)) && LaidOut(e) && InRange(dims, path) && |b| == Size(Nest(e, dims)) && dims != []
    ensures var inner, o := Nest(e, dims[1..]), Start(e, dims, path);
      var s := Size(inner);
      && LaidOut(inner) && o + s <= |b|
      && GetItem(ToJson(Nest(e, dims), b), path[0]) == Some(ToJson(inner, b[o..o + s]))
  {
    hide ToJson, ToItems, LaidOut, Size;
    var ty := Nest(e, dims);
    NestSize(e, dims[1..]);
    ArraySize(ty);
    ToList(ty, b);
    ItemAt(ty, dims[0], b, path[0]);
  }

  /** Element i of a list, if there is one. */
  function GetItem(j: Json, i: nat): Option<Json>
  {
    if j.List? then GetArrayItem(j.items, i) else None
  }

  lemma ToList(ty: Type, b: seq<byte>)
    requires LaidOut(ty) && ty.Array? && |b| == Size(ty)
    ensures ToJson(ty, b) == List(ToItems(ty, ty.dim, b))
  {
  }

  /** From JSON: the same bytes are written from the same cell, or kept when the tree has no such cell. */
  lemma {:induction false} CellFromJson(e: Type, dims: seq<nat>, j: Option<Json>, b: seq<byte>, path: seq<nat>)
    requires LaidOut(Nest(e, dims)) && LaidOut(e) && InRange(dims, path) && |b| == Size(Nest(e, dims))
    ensures Cell(e, dims, path, FromJson(Nest(e, dims), j, b)) == FromJson(e, At(j, path), Cell(e, dims, path, b))
    decreases |dims|
  {
    hide FromJson, FromItems, LaidOut, Size, Cell, Start;
    if dims == [] {
      CellOfWhole(e, b);
      CellOfWhole(e, FromJson(e, j, b));
    } else if j.None? || !j.value.List? {
      MissingKeeps(Nest(e, dims), j, b);
      FromNothing(e, Cell(e, dims, path, b));
    } else {
      var o := Start(e, dims, path);
      var s, item := Size(Nest(e, dims[1..])), GetArrayItem(j.value.items, path[0]);
      ElementFromItems(e, dims, j.value.items, b, path);
      CellFromJson(e, dims[1..], item, b[o..o + s], path[1..]);
      CellOfElement(e, dims, path, b);
      CellOfElement(e, dims, path, FromJson(Nest(e, dims), j, b));
    }
  }

  lemma ElementFromItems(e: Type, dims: seq<nat>, items: seq<Json>, b: seq<byte>, path: seq<nat>)
    requires LaidOut(Nest(e, dims)) && LaidOut(e) && InRange(dims, path) && |b| == Size(Nest(e, dims)) && dims != []
    ensures var inner, o := Nest(e, dims[1..]), Start(e, dims, path);
      var s := Size(inner);
      && LaidOut(inner) && o + s <= |b|
      && FromJson(Nest(e, dims), Some(List(items)), b)[o..o + s]
        == FromJson(inner, GetArrayItem(items, path[0]), b[o..o + s])
  {
    hide FromJson, FromItems, LaidOut, Size;
    var ty := Nest(e, dims);
    NestSize(e, dims[1..]);
    ArraySize(ty);
    FromList(ty, items, b);
    ItemBound(ty, dims[0], items, b, path[0]);
  }

  lemma FromList(ty: Type, items: seq<Json>, b: seq<byte>)
    requires LaidOut(ty) && ty.Array? && |b| == Size(ty)
    ensures FromJson(ty, Some(List(items)), b) == FromItems(ty, ty.dim, items, b)
  {
  }

  lemma FromNothing(ty: Type, b: seq<byte>)
    requires LaidOut(ty) && |b| == Size(ty)
    ensures FromJson(ty, None, b) == b
  {
  }

  lemma MissingKeeps(ty: Type, j: Option<Json>, b: seq<byte>)
    requires LaidOut(ty) && ty.Array? && |b| == Size(ty) && (j.None? || !j.value.List?)
    ensures FromJson(ty, j, b) == b
  {
  }
}
