/** The binder itself: one walk over the schema, over a byte array in place, in both directions. */
module JsonBinder {
  import opened Alignment
  import opened Bytes
  import opened JsonCells
  import opened JsonRoundTrip
  import opened JsonSchema
  import opened Options

  /** Array nesting, the element type at the bottom, and the sizes on the way. */
  function Levels(ty: Type): nat { if ty.Array? then 1 + Levels(ty.elem) else 0 }
  function Leaf(ty: Type): Type { if ty.Array? then Leaf(ty.elem) else ty }
  function Dims(ty: Type): (d: seq<nat>)
    ensures |d| == Levels(ty)
  {
    if ty.Array? then [ty.dim] + Dims(ty.elem) else []
  }

  /** What the macros can declare: arrays of at most three dimensions, strings counting as one. */
  ghost predicate Declarable(ty: Type)
  {
    match ty
    case Struct(_, fields) => forall i :: 0 <= i < |fields| ==> Declarable(fields[i].ty)
    case Array(_, _) => Levels(ty) + (if Leaf(ty).CharArray? then 1 else 0) <= 3 && Declarable(ty.elem)
    case _ => true
  }

  // ---- the `sub` array: {string flag, current level, number of levels, sizes...}

  /** sub describes the levels from `level` down, before the current level is entered. */
  ghost predicate Describes(sub: seq<nat>, level: Type, tsize: nat)
  {
    && |sub| == 64 && level.Array? && tsize == Size(Leaf(level))
    && (sub[0] != 0 <==> Leaf(level).CharArray?)
    && sub[1] + Levels(level) + (if sub[0] != 0 then 1 else 0) == sub[2] <= 3
    && sub[3 + sub[1]..3 + sub[1] + Levels(level)] == Dims(level)
  }

  /** `ARR_SKIP`: the bytes from the current level to the end. */
  method ArrSkip(sub: array<nat>, tsize: nat) returns (ret: nat)
    requires sub.Length == 64 && sub[1] <= sub[2] <= 3
    ensures ret == tsize * Prod(sub[3 + sub[1]..3 + Max(sub[1], Limit(sub[..]))])
  {
    var end: int := sub[2];
    if sub[0] != 0 {
      end := end - 1;
    }
    var i := sub[1];
    ret := tsize;
    assert sub[3 + i..3 + i] == [];
    while i < end
      invariant sub[1] <= i && (i <= end || i == sub[1])
      invariant ret == tsize * Prod(sub[3 + sub[1]..3 + i])
    {
      ghost var front := sub[3 + sub[1]..3 + i];
      assert sub[3 + sub[1]..3 + i + 1] == front + [sub[3 + i]];
      ProdAppend(front, sub[3 + i]);
      MulAssoc(tsize, Prod(front), sub[3 + i]);
      ret := ret * sub[3 + i];
      i := i + 1;
    }
  }

  function Limit(sub: seq<nat>): int
    requires |sub| == 64
  {
    (sub[2] as int) - (if sub[0] != 0 then 1 else 0)
  }

  function Max(a: int, b: int): int { if a >= b then a else b }

  lemma {:induction false} ProdAppend(s: seq<nat>, x: nat)
    ensures Prod(s + [x]) == Prod(s) * x
  {
    if s == [] {
      assert ([x])[1..] == [];
    } else {
      assert (s + [x])[1..] == s[1..] + [x];
      ProdAppend(s[1..], x);
      MulAssoc(s[0], Prod(s[1..]), x);
    }
  }

  lemma {:induction false} SizeOfLevels(ty: Type)
    ensures Size(ty) == Prod(Dims(ty)) * Size(Leaf(ty))
  {
    if ty.Array? {
      SizeOfLevels(ty.elem);
      assert Dims(ty)[1..] == Dims(ty.elem);
      MulAssoc(ty.dim, Prod(Dims(ty.elem)), Size(Leaf(ty)));
    }
  }

  // ---- leaves

  predicate IsLeaf(ty: Type) { ty.Int? || ty.Hex64? || ty.CharArray? }

  /** Write bytes through a pointer into the struct. */
  method Store(mem: array<byte>, at: nat, bytes: seq<byte>)
    requires at + |bytes| <= mem.Length
    modifies mem
    ensures mem[..] == Splice(old(mem[..]), at, bytes)
  {
    forall i | 0 <= i < |bytes| {
      mem[at + i] := bytes[i];
    }
  }

  /** The scalar, string and uint64 binders. To JSON they return the node, from JSON they write through `mem`. */
  method BindLeaf(ty: Type, m: bool, json: Option<Json>, mem: array<byte>, at: nat) returns (node: Json)
    requires IsLeaf(ty) && LaidOut(ty) && at + Size(ty) <= mem.Length
    requires !m ==> Terminated(ty, mem[at..at + Size(ty)])
    modifies mem
    ensures m ==> mem[..] == Splice(old(mem[..]), at, FromJson(ty, json, old(mem[at..at + Size(ty)])))
    ensures !m ==> mem[..] == old(mem[..]) && node == ToJson(ty, old(mem[at..at + Size(ty)]))
  {
    node := Null;
    var slice := mem[at..at + Size(ty)];
    if !m {
      node := LeafNode(ty, slice);
    } else {
      var bytes := LeafBytes(ty, json, slice);
      Store(mem, at, bytes);
    }
  }

  method LeafNode(ty: Type, b: seq<byte>) returns (node: Json)
    requires IsLeaf(ty) && LaidOut(ty) && |b| == Size(ty) && Terminated(ty, b)
    ensures node == ToJson(ty, b)
  {
    match ty
    case Int(_) => node := Number(SignedValue(b));
    case Hex64 => node := Text(HexPrint(LittleEndian(b)));
    case CharArray(_) => node := Text(CString(b));
  }

  method LeafBytes(ty: Type, json: Option<Json>, b: seq<byte>) returns (bytes: seq<byte>)
    requires IsLeaf(ty) && LaidOut(ty) && |b| == Size(ty)
    ensures bytes == FromJson(ty, json, b)
  {
    bytes := b;
    if json.Some? {
      match ty
      case Int(w) =>
        if json.value.Number? { bytes := Truncated(json.value.valueint, w); }
      case Hex64 =>
        if json.value.Text? { bytes := LittleEndianBytes(HexParse(json.value.valuestring), 8); }
      case CharArray(n) =>
        if json.value.Text? { bytes := StrNCpy(json.value.valuestring, n); }
    }
  }

  lemma SpliceSame(b: seq<byte>, at: nat, n: nat)
    requires at + n <= |b|
    ensures Splice(b, at, b[at..at + n]) == b
  {
  }

  /** Replacing inside a replaced stretch. */
  lemma SpliceInside(b: seq<byte>, at: nat, r: seq<byte>, off: nat, x: seq<byte>)
    requires at + |r| <= |b| && off + |x| <= |r|
    ensures Splice(Splice(b, at, r), at + off, x) == Splice(b, at, Splice(r, off, x))
  {
    var l, q := Splice(Splice(b, at, r), at + off, x), Splice(b, at, Splice(r, off, x));
    assert |l| == |q|;
    forall i | 0 <= i < |b| ensures l[i] == q[i] {
    }
  }

  lemma SpliceRead(b: seq<byte>, at: nat, r: seq<byte>, off: nat, n: nat)
    requires at + |r| <= |b| && off + n <= |r|
    ensures Splice(b, at, r)[at + off..at + off + n] == r[off..off + n]
  {
  }

  // ---- the walk

  /** The effect of binding the field of type ty at `at`, in either direction. */
  ghost predicate Bound(ty: Type, m: bool, json: Option<Json>, was: seq<byte>, now: seq<byte>, at: nat, node: Json)
    requires LaidOut(ty) && at + Size(ty) <= |was|
  {
    if m then now == Splice(was, at, FromJson(ty, json, was[at..at + Size(ty)]))
    else now == was && node == ToJson(ty, was[at..at + Size(ty)])
  }

  /** The callback `sjb_bind_TYPE`. */
  method Bind(ty: Type, m: bool, json: Option<Json>, mem: array<byte>, at: nat) returns (node: Json)
    requires !ty.Array? && LaidOut(ty) && Declarable(ty) && at + Size(ty) <= mem.Length
    requires !m ==> Terminated(ty, mem[at..at + Size(ty)])
    modifies mem
    ensures Bound(ty, m, json, old(mem[..]), mem[..], at, node)
    decreases ty, 2
  {
    if ty.Struct? {
      node := BindStruct(ty, m, json, mem, at);
    } else {
      node := BindLeaf(ty, m, json, mem, at);
    }
  }

  /** After the first k macros of a struct body. */
  ghost predicate StructBound(ty: Type, k: nat, m: bool, json: Option<Json>, was: seq<byte>, now: seq<byte>, at: nat,
                              members: seq<Member>)
    requires ty.Struct? && LaidOut(ty) && k <= |ty.fields| && at + Size(ty) <= |was|
  {
    var b := was[at..at + Size(ty)];
    if !m then now == was && members == ToMembers(ty, k, b)
    else now == if json.Some? then Splice(was, at, FromMembers(ty, k, json.value, b)) else was
  }

  lemma StructStart(ty: Type, m: bool, json: Option<Json>, was: seq<byte>, at: nat)
    requires ty.Struct? && LaidOut(ty) && at + Size(ty) <= |was|
    ensures StructBound(ty, 0, m, json, was, was, at, [])
  {
    SpliceSame(was, at, Size(ty));
  }

  lemma StructEnd(ty: Type, m: bool, json: Option<Json>, was: seq<byte>, now: seq<byte>, at: nat, members: seq<Member>)
    requires ty.Struct? && LaidOut(ty) && at + Size(ty) <= |was|
    requires StructBound(ty, |ty.fields|, m, json, was, now, at, members)
    ensures Bound(ty, m, json, was, now, at, Object(members))
  {
    SpliceSame(was, at, Size(ty));
  }

  /** What field k of a struct is bound from. */
  function MemberOf(json: Option<Json>, name: string): Option<Json>
  {
    if json.Some? then GetObjectItem(json.value, name) else None
  }

  lemma StructStep(ty: Type, k: nat, m: bool, json: Option<Json>, was: seq<byte>, before: seq<byte>, now: seq<byte>,
                   at: nat, members: seq<Member>, child: Json)
    requires ty.Struct? && LaidOut(ty) && k < |ty.fields| && at + Size(ty) <= |was| == |before|
    requires StructBound(ty, k, m, json, was, before, at, members)
    requires LaidOut(ty.fields[k].ty) && ty.fields[k].off + Size(ty.fields[k].ty) <= Size(ty)
    requires Bound(ty.fields[k].ty, m, MemberOf(json, ty.fields[k].name), before, now, at + ty.fields[k].off, child)
    ensures StructBound(ty, k + 1, m, json, was, now, at,
      if m then members else members + [Member(ty.fields[k].name, child)])
  {
    hide LaidOut, Splice, Size, FromJson, ToJson, FromMembers, ToMembers;
    var f, b := ty.fields[k], was[at..at + Size(ty)];
    if !m {
      SubSlice(was, at, Size(ty), f.off, Size(f.ty));
      ToMembersMore(ty, k, b);
    } else if json.None? {
      FromNothing(f.ty, before[at + f.off..at + f.off + Size(f.ty)]);
      SpliceSame(before, at + f.off, Size(f.ty));
    } else {
      var r := FromMembers(ty, k, json.value, b);
      SpliceRead(was, at, r, f.off, Size(f.ty));
      SpliceInside(was, at, r, f.off, FromJson(f.ty, MemberOf(json, f.name), Slice(f, r)));
      FromMembersMore(ty, k, json.value, b);
    }
  }

  lemma ToMembersMore(ty: Type, k: nat, b: seq<byte>)
    requires ty.Struct? && LaidOut(ty) && k < |ty.fields| && |b| == Size(ty)
    requires LaidOut(ty.fields[k].ty) && ty.fields[k].off + Size(ty.fields[k].ty) <= Size(ty)
    ensures ToMembers(ty, k + 1, b)
      == ToMembers(ty, k, b) + [Member(ty.fields[k].name, ToJson(ty.fields[k].ty, Slice(ty.fields[k], b)))]
  {
  }

  lemma FieldTerminated(ty: Type, k: nat, was: seq<byte>, at: nat)
    requires ty.Struct? && LaidOut(ty) && k < |ty.fields| && at + Size(ty) <= |was|
    requires Terminated(ty, was[at..at + Size(ty)])
    ensures LaidOut(ty.fields[k].ty) && ty.fields[k].off + Size(ty.fields[k].ty) <= Size(ty)
    ensures Terminated(ty.fields[k].ty, was[at + ty.fields[k].off..at + ty.fields[k].off + Size(ty.fields[k].ty)])
  {
    var f := ty.fields[k];
    SubSlice(was, at, Size(ty), f.off, Size(f.ty));
    assert Slice(f, was[at..at + Size(ty)]) == was[at + f.off..at + f.off + Size(f.ty)];
  }

  lemma FieldDeclarable(ty: Type, k: nat)
    requires ty.Struct? && Declarable(ty) && k < |ty.fields|
    ensures Declarable(ty.fields[k].ty)
  {
  }

  /** The body of a STRUCT: one FIELD, STRING or ARRAY macro after the other. */
  method BindStruct(ty: Type, m: bool, json: Option<Json>, mem: array<byte>, at: nat) returns (node: Json)
    requires ty.Struct? && LaidOut(ty) && Declarable(ty) && at + Size(ty) <= mem.Length
    requires !m ==> Terminated(ty, mem[at..at + Size(ty)])
    modifies mem
    ensures Bound(ty, m, json, old(mem[..]), mem[..], at, node)
    decreases ty, 1
  {
    hide LaidOut, Declarable, Terminated, StructBound, Bound;
    ghost var was := mem[..];
    assert was[at..at + Size(ty)] == mem[at..at + Size(ty)];
    var members: seq<Member>, k: nat := [], 0;
    StructStart(ty, m, json, was, at);
    while k < |ty.fields|
      invariant k <= |ty.fields|
      invariant StructBound(ty, k, m, json, was, mem[..], at, members)
      invariant !m ==> mem[..] == was
    {
      var f := ty.fields[k];
      FieldInside(ty, k);
      FieldDeclarable(ty, k);
      ghost var before := mem[..];
      if !m {
        FieldTerminated(ty, k, was, at);
        assert mem[at + f.off..at + f.off + Size(f.ty)] == was[at + f.off..at + f.off + Size(f.ty)];
      }
      var child := BindField(f.ty, m, MemberOf(json, f.name), mem, at + f.off);
      StructStep(ty, k, m, json, was, before, mem[..], at, members, child);
      StillTheSame(f.ty, m, MemberOf(json, f.name), before, mem[..], at + f.off, child);
      if !m {
        members := members + [Member(f.name, child)];
      }
      k := k + 1;
    }
    node := Object(members);
    StructEnd(ty, m, json, was, mem[..], at, members);
  }

  lemma StillTheSame(ty: Type, m: bool, json: Option<Json>, was: seq<byte>, now: seq<byte>, at: nat, node: Json)
    requires LaidOut(ty) && at + Size(ty) <= |was| && Bound(ty, m, json, was, now, at, node)
    ensures !m ==> now == was
  {
  }

  /** `cJSON_GetArraySize` counts children, of arrays and of objects. */
  function GetArraySize(j: Json): nat
  {
    match j
    case List(items) => |items|
    case Object(members) => |members|
    case _ => 0
  }

  /** A FIELD, STRING or ARRAY macro; for arrays it sets up `sub` and clips the size to what the tree has. */
  method BindField(ty: Type, m: bool, json: Option<Json>, mem: array<byte>, at: nat) returns (node: Json)
    requires LaidOut(ty) && Declarable(ty) && at + Size(ty) <= mem.Length
    requires !m ==> Terminated(ty, mem[at..at + Size(ty)])
    modifies mem
    ensures Bound(ty, m, json, old(mem[..]), mem[..], at, node)
    decreases ty, 3
  {
    hide LaidOut, Declarable, Terminated, Bound, Describes, ArrayBound, Size, Leaf;
    if !ty.Array? {
      node := Bind(ty, m, json, mem, at);
      return;
    }
    node := Null;
    ghost var was := mem[..];
    if m && json.None? {
      NoNode(ty, was, at);
      return;
    }
    var sub := NewSub(ty);
    var n := ty.dim;
    if m {
      n := GetArraySize(json.value);
      if n > ty.dim {
        n := ty.dim;
      }
    }
    assert mem[..] == was && was[at..at + Size(ty)] == mem[at..at + Size(ty)];
    var items := BindArray(ty, Leaf(ty), m, json, mem, at, n, sub, Size(Leaf(ty)));
    node := List(items);
    ArrayEnd(ty, m, json, was, mem[..], at, n, items);
  }

  lemma NoNode(ty: Type, was: seq<byte>, at: nat)
    requires LaidOut(ty) && at + Size(ty) <= |was|
    ensures Bound(ty, true, None, was, was, at, Null)
  {
    SpliceSame(was, at, Size(ty));
  }

  /** The `sub` array an ARRAY macro starts from. */
  method NewSub(ty: Type) returns (sub: array<nat>)
    requires ty.Array? && Declarable(ty)
    ensures fresh(sub) && sub.Length == 64 && Describes(sub[..], ty, Size(Leaf(ty)))
  {
    var isString := Leaf(ty).CharArray?;
    sub := new nat[64](_ => 0);
    var d := Dims(ty);
    forall i | 0 <= i < |d| {
      sub[3 + i] := d[i];
    }
    sub[0], sub[2] := if isString then 1 else 0, |d| + (if isString then 1 else 0);
    assert sub[..][3..3 + |d|] == d;
  }

  /** After j of the elements at one level. */
  ghost predicate ArrayBound(level: Type, j: nat, m: bool, json: Option<Json>, was: seq<byte>, now: seq<byte>, at: nat,
                             items: seq<Json>)
    requires level.Array? && LaidOut(level) && at + j * Size(level.elem) <= |was|
  {
    var b := was[at..at + j * Size(level.elem)];
    if !m then now == was && items == ToItems(level, j, b)
    else if json.Some? && json.value.List? then now == Splice(was, at, FromItems(level, j, json.value.items, b))
    else now == was
  }

  lemma ArrayStart(level: Type, m: bool, json: Option<Json>, was: seq<byte>, at: nat)
    requires level.Array? && LaidOut(level) && at <= |was|
    ensures ArrayBound(level, 0, m, json, was, was, at, [])
  {
    assert Splice(was, at, []) == was;
  }

  /** Elements the tree does not have keep their bytes, so stopping at its last one is the same as going on. */
  lemma {:induction false} MissingItems(level: Type, k: nat, n: nat, items: seq<Json>, b: seq<byte>)
    requires level.Array? && LaidOut(level) && LaidOut(level.elem) && |b| == k * Size(level.elem) && |items| <= n <= k
    ensures n * Size(level.elem) <= |b|
    ensures FromItems(level, k, items, b)
      == FromItems(level, n, items, b[..n * Size(level.elem)]) + b[n * Size(level.elem)..]
    decreases k
  {
    hide FromJson, FromItems, LaidOut, Size;
    var s := Size(level.elem);
    if n < k {
      var o, m := ItemBounds(n, k, s);
      MissingItems(level, k - 1, n, items, b[..m]);
      FromItemsMore(level, k, items, b, m);
      assert b[..m][..o] == b[..o] && b[..m][o..] + b[m..] == b[o..];
      FromNothing(level.elem, b[m..]);
    } else {
      assert b[..n * s] == b && b[n * s..] == [];
    }
  }

  lemma ArrayEnd(level: Type, m: bool, json: Option<Json>, was: seq<byte>, now: seq<byte>, at: nat, n: nat,
                 items: seq<Json>)
    requires level.Array? && LaidOut(level) && at + Size(level) <= |was| && n <= level.dim
    requires at + n * Size(level.elem) <= |was| && ArrayBound(level, n, m, json, was, now, at, items)
    requires !m ==> n == level.dim
    requires m ==> json.Some? && (json.value.List? ==> n == |json.value.items| || n == level.dim)
    ensures Bound(level, m, json, was, now, at, List(items))
  {
    if m && json.value.List? {
      if n < level.dim {
        ShortList(level, json.value.items, was, at, n);
      }
    } else if m {
      MissingKeeps(level, json, was[at..at + Size(level)]);
      SpliceSame(was, at, Size(level));
    }
  }

  /** A list shorter than the array: binding its elements is binding the whole array. */
  lemma ShortList(level: Type, all: seq<Json>, was: seq<byte>, at: nat, n: nat)
    requires level.Array? && LaidOut(level) && at + Size(level) <= |was| && n == |all| < level.dim
    requires at + n * Size(level.elem) <= |was|
    ensures Splice(was, at, FromItems(level, n, all, was[at..at + n * Size(level.elem)]))
      == Splice(was, at, FromJson(level, Some(List(all)), was[at..at + Size(level)]))
  {
    hide Splice, FromItems;
    var s, b := Size(level.elem), was[at..at + Size(level)];
    MissingItems(level, level.dim, n, all, b);
    assert b[..n * s] == was[at..at + n * s];
    var r := FromItems(level, n, all, b[..n * s]);
    assert b[n * s..] == was[at + n * s..at + Size(level)];
    SpliceTail(was, at, r, b[n * s..]);
  }

  lemma SpliceTail(b: seq<byte>, at: nat, r: seq<byte>, tail: seq<byte>)
    requires at + |r| + |tail| <= |b| && tail == b[at + |r|..at + |r| + |tail|]
    ensures Splice(b, at, r + tail) == Splice(b, at, r)
  {
  }

  lemma ArrayStep(level: Type, j: nat, m: bool, json: Option<Json>, was: seq<byte>, before: seq<byte>, now: seq<byte>,
                  at: nat, items: seq<Json>, child: Json)
    requires level.Array? && LaidOut(level) && LaidOut(level.elem)
    requires at + (j + 1) * Size(level.elem) <= |was| == |before|
    requires at + j * Size(level.elem) + Size(level.elem) <= |was|
    requires ArrayBound(level, j, m, json, was, before, at, items)
    requires m ==> json.Some? && json.value.List?
    requires Bound(level.elem, m, if m then GetArrayItem(json.value.items, j) else None, before, now,
                   at + j * Size(level.elem), child)
    ensures ArrayBound(level, j + 1, m, json, was, now, at, if m then items else items + [child])
  {
    hide Splice, LaidOut, ToJson, FromJson, ToItems, FromItems;
    var s := Size(level.elem);
    ElementBounds(s, j + 1);
    var b, o := was[at..at + (j + 1) * s], j * s;
    assert b[..o] == was[at..at + o] && b[o..] == was[at + o..at + o + s];
    if m {
      var r := FromItems(level, j, json.value.items, b[..o]);
      SpliceBeyond(was, at, r, s);
      SpliceAppend(was, at, r, FromJson(level.elem, GetArrayItem(json.value.items, j), b[o..]));
      FromItemsMore(level, j + 1, json.value.items, b, o);
    } else {
      ToItemsMore(level, j + 1, b, o);
    }
  }

  lemma SpliceBeyond(b: seq<byte>, at: nat, r: seq<byte>, n: nat)
    requires at + |r| + n <= |b|
    ensures Splice(b, at, r)[at + |r|..at + |r| + n] == b[at + |r|..at + |r| + n]
  {
  }

  lemma SpliceAppend(b: seq<byte>, at: nat, r: seq<byte>, x: seq<byte>)
    requires at + |r| + |x| <= |b|
    ensures Splice(Splice(b, at, r), at + |r|, x) == Splice(b, at, r + x)
  {
    var l, q := Splice(Splice(b, at, r), at + |r|, x), Splice(b, at, r + x);
    forall i | 0 <= i < |b| ensures l[i] == q[i] {
    }
  }

  /** Strings in the first j elements of an array that are yet to be read. */
  lemma {:induction false} ItemTerminated(ty: Type, k: nat, b: seq<byte>, i: nat)
    requires LaidOut(ty) && ty.Array? && |b| == k * Size(ty.elem) && i < k && ItemsTerminated(ty, k, b)
    ensures i * Size(ty.elem) + Size(ty.elem) <= |b|
    ensures Terminated(ty.elem, b[i * Size(ty.elem)..i * Size(ty.elem) + Size(ty.elem)])
    decreases k
  {
    hide Terminated;
    var s := Size(ty.elem);
    MulLess(i, k, s);
    ElementBounds(s, k);
    if i < k - 1 {
      MulLess(i, k - 1, s);
      ItemTerminated(ty, k - 1, b[..(k - 1) * s], i);
      assert b[..(k - 1) * s][i * s..i * s + s] == b[i * s..i * s + s];
    } else {
      assert b[(k - 1) * s..] == b[i * s..i * s + s];
    }
  }

  lemma ArrayTerminated(level: Type, b: seq<byte>)
    requires LaidOut(level) && level.Array? && |b| == Size(level) && Terminated(level, b)
    ensures LaidOut(level.elem) && |b| == level.dim * Size(level.elem) && ItemsTerminated(level, level.dim, b)
  {
  }

  lemma ElementTerminated(level: Type, was: seq<byte>, at: nat, j: nat)
    requires LaidOut(level) && level.Array? && at + Size(level) <= |was| && j < level.dim
    requires Terminated(level, was[at..at + Size(level)])
    ensures at + j * Size(level.elem) + Size(level.elem) <= |was|
    ensures Terminated(level.elem,
      was[at + j * Size(level.elem)..at + j * Size(level.elem) + Size(level.elem)])
  {
    hide LaidOut, Terminated, Size;
    var s := Size(level.elem);
    ArraySize(level);
    ArrayTerminated(level, was[at..at + Size(level)]);
    ItemTerminated(level, level.dim, was[at..at + Size(level)], j);
    SubSlice(was, at, Size(level), j * s, s);
  }

  /** What the inside of the loop knows once a level is entered. */
  ghost predicate Entered(sub: seq<nat>, elem: Type, base: Type, tsize: nat)
  {
    && |sub| == 64 && sub[1] <= sub[2] <= 3 && base == Leaf(elem) && tsize == Size(base)
    && (elem.Array? <==> !(sub[0] != 0 && sub[1] + 1 == sub[2]) && sub[1] != sub[2])
    && (elem.Array? ==> Describes(sub, elem, tsize) && sub[3 + sub[1]] == elem.dim)
  }

  lemma LevelEntered(sub: seq<nat>, entered: seq<nat>, level: Type, tsize: nat)
    requires Describes(sub, level, tsize) && |sub| == 64 && entered == sub[1 := sub[1] + 1]
    ensures Entered(entered, level.elem, Leaf(level), tsize)
  {
    var c, e, n := 3 + sub[1], level.elem, Levels(level);
    assert sub[c..c + n][1..] == sub[c + 1..c + n] == entered[c + 1..c + n];
    assert Dims(level)[1..] == Dims(e);
    if e.Array? {
      assert entered[c + 1..c + n][0] == entered[c + 1];
    }
  }

  lemma SkipIsSize(entered: seq<nat>, elem: Type, tsize: nat)
    requires Describes(entered, elem, tsize)
    ensures tsize * Prod(entered[3 + entered[1]..3 + Max(entered[1], Limit(entered))]) == Size(elem)
  {
    hide Prod, Size;
    SizeOfLevels(elem);
    assert Max(entered[1], Limit(entered)) == entered[1] + Levels(elem);
  }

  /** The start of element j, and that it ends inside the array. */
  lemma ElementInside(level: Type, j: nat, size: nat)
    requires level.Array? && j < size <= level.dim
    ensures (j + 1) * Size(level.elem) == j * Size(level.elem) + Size(level.elem) <= Size(level)
    ensures size * Size(level.elem) <= Size(level)
  {
    var s := Size(level.elem);
    ElementBounds(s, j + 1);
    MulLess(j, level.dim, s);
    SizeMonotone(size, level.dim, s);
  }

  lemma SizeMonotone(a: nat, b: nat, s: nat)
    requires a <= b
    ensures a * s <= b * s
  {
    ProductOfNats(b - a, s);
    assert (b - a) * s == b * s - a * s;
  }

  /** One turn of the loop: a leaf goes to the callback, a nested array is walked with a copy of `sub`. */
  method BindElement(elem: Type, base: Type, m: bool, json: Option<Json>, mem: array<byte>, at: nat, j: nat,
                     sub: array<nat>, tsize: nat) returns (child: Json)
    requires LaidOut(elem) && Declarable(elem) && at + j * Size(elem) + Size(elem) <= mem.Length
    requires sub.Length == 64 && Entered(sub[..], elem, base, tsize)
    requires !m ==> Terminated(elem, mem[at + j * Size(elem)..at + j * Size(elem) + Size(elem)])
    modifies mem
    ensures Bound(elem, m, json, old(mem[..]), mem[..], at + j * Size(elem), child)
    decreases elem, 4
  {
    hide LaidOut, Declarable, Terminated, Bound, Describes, ArrayBound, Size;
    if (sub[0] != 0 && sub[1] + 1 == sub[2]) || sub[1] == sub[2] {
      child := Bind(base, m, json, mem, at + j * tsize);
    } else {
      child := BindNested(elem, base, m, json, mem, at, j, sub, tsize);
    }
  }

  /** The recursive branch of the loop. */
  method BindNested(elem: Type, base: Type, m: bool, json: Option<Json>, mem: array<byte>, at: nat, j: nat,
                    sub: array<nat>, tsize: nat) returns (child: Json)
    requires elem.Array? && LaidOut(elem) && Declarable(elem) && at + j * Size(elem) + Size(elem) <= mem.Length
    requires sub.Length == 64 && Entered(sub[..], elem, base, tsize)
    requires !m ==> Terminated(elem, mem[at + j * Size(elem)..at + j * Size(elem) + Size(elem)])
    modifies mem
    ensures Bound(elem, m, json, old(mem[..]), mem[..], at + j * Size(elem), child)
    decreases elem, 3
  {
    hide LaidOut, Declarable, Terminated, Bound, Describes, ArrayBound, Size, Leaf, Prod;
    ghost var entry, was := sub[..], mem[..];
    var dup := new nat[64](_ => 0);
    forall i | 0 <= i < 16 {
      dup[i] := sub[i];
    }
    assert sub[..] == entry && mem[..] == was;
    DupDescribes(entry, dup[..], elem, tsize);
    var skip := ArrSkip(sub, tsize);
    SkipIsSize(entry, elem, tsize);
    var start := at + j * skip;
    assert start == at + j * Size(elem);
    assert was[start..start + Size(elem)] == mem[start..start + Size(elem)];
    var items := BindArray(elem, base, m, json, mem, start, sub[3 + sub[1]], dup, tsize);
    child := List(items);
    WholeArray(elem, m, json, was, mem[..], start, items);
  }

  lemma DupDescribes(sub: seq<nat>, dup: seq<nat>, level: Type, tsize: nat)
    requires Describes(sub, level, tsize) && |dup| == |sub| == 64 && forall i :: 0 <= i < 16 ==> dup[i] == sub[i]
    ensures Describes(dup, level, tsize)
  {
  }

  /** A nested array is walked over all its elements. */
  lemma WholeArray(level: Type, m: bool, json: Option<Json>, was: seq<byte>, now: seq<byte>, at: nat, items: seq<Json>)
    requires level.Array? && LaidOut(level) && at + Size(level) <= |was|
    requires at + level.dim * Size(level.elem) <= |was| && ArrayBound(level, level.dim, m, json, was, now, at, items)
    ensures Bound(level, m, json, was, now, at, List(items))
  {
    if json.None? {
      SpliceSame(was, at, Size(level));
    } else {
      ArrayEnd(level, m, json, was, now, at, level.dim, items);
    }
  }

  lemma ArrayParts(level: Type, size: nat)
    requires level.Array? && size <= level.dim
    ensures size * Size(level.elem) <= Size(level)
    ensures LaidOut(level) ==> LaidOut(level.elem)
    ensures Declarable(level) ==> Declarable(level.elem)
    ensures Leaf(level) == Leaf(level.elem)
  {
    SizeMonotone(size, level.dim, Size(level.elem));
  }

  lemma NothingBound(level: Type, size: nat, m: bool, json: Option<Json>, was: seq<byte>, at: nat)
    requires level.Array? && LaidOut(level) && at + size * Size(level.elem) <= |was|
    requires m && !(json.Some? && json.value.List?)
    ensures ArrayBound(level, size, m, json, was, was, at, [])
  {
  }

  /** `sjb_bind_array`: enter the next level of `sub` and walk its `size` elements. `level` says what the walk is
      over. */
  method BindArray(level: Type, base: Type, m: bool, json: Option<Json>, mem: array<byte>, at: nat, size: nat,
                   sub: array<nat>, tsize: nat) returns (items: seq<Json>)
    requires level.Array? && LaidOut(level) && Declarable(level) && base == Leaf(level)
    requires at + Size(level) <= mem.Length && size <= level.dim
    requires sub.Length == 64 && Describes(sub[..], level, tsize)
    requires !m ==> size == level.dim && Terminated(level, mem[at..at + Size(level)])
    modifies mem, sub
    ensures size * Size(level.elem) <= Size(level)
    ensures ArrayBound(level, size, m, json, old(mem[..]), mem[..], at, items)
    decreases level, 1
  {
    hide LaidOut, Declarable, Terminated, Bound, Describes, ArrayBound, Size, Entered, Leaf;
    ghost var was, s := mem[..], Size(level.elem);
    assert was[at..at + Size(level)] == mem[at..at + Size(level)];
    ghost var entry := sub[..];
    sub[1] := sub[1] + 1;
    assert sub[..] == entry[1 := entry[1] + 1];
    LevelEntered(entry, sub[..], level, tsize);
    ArrayParts(level, size);
    items := [];
    ArrayStart(level, m, json, was, at);
    assert 0 * s == 0;
    if m && !(json.Some? && json.value.List?) {
      NothingBound(level, size, m, json, was, at);
      return;
    }
    var j: nat := 0;
    while j < size
      invariant j <= size
      invariant Entered(sub[..], level.elem, base, tsize)
      invariant Inside(level, j, at, was) && ArrayBound(level, j, m, json, was, mem[..], at, items)
      invariant !m ==> mem[..] == was
    {
      ghost var entered := sub[..];
      items := BindNext(level, base, m, json, mem, at, j, sub, tsize, items, was);
      assert sub[..] == entered;
      j := j + 1;
    }
  }

  /** The first j elements fit. */
  ghost predicate Inside(level: Type, j: nat, at: nat, was: seq<byte>)
    requires level.Array?
  {
    at + j * Size(level.elem) <= |was|
  }

  lemma NextInside(level: Type, j: nat, at: nat, was: seq<byte>)
    requires level.Array? && j < level.dim && at + Size(level) <= |was|
    ensures Inside(level, j, at, was) && Inside(level, j + 1, at, was)
    ensures at + (j + 1) * Size(level.elem) <= |was| && at + j * Size(level.elem) + Size(level.elem) <= |was|
  {
    ElementInside(level, j, level.dim);
  }

  /** The loop body: element j of the array, whose image was `was` when the loop began. */
  method BindNext(level: Type, base: Type, m: bool, json: Option<Json>, mem: array<byte>, at: nat, j: nat,
                  sub: array<nat>, tsize: nat, done: seq<Json>, ghost was: seq<byte>) returns (items: seq<Json>)
    requires level.Array? && LaidOut(level) && LaidOut(level.elem) && Declarable(level.elem) && j < level.dim
    requires at + Size(level) <= |was| == mem.Length && sub.Length == 64 && Entered(sub[..], level.elem, base, tsize)
    requires m ==> json.Some? && json.value.List?
    requires !m ==> Terminated(level, was[at..at + Size(level)]) && mem[..] == was
    requires Inside(level, j, at, was) && ArrayBound(level, j, m, json, was, mem[..], at, done)
    modifies mem
    ensures Inside(level, j + 1, at, was) && ArrayBound(level, j + 1, m, json, was, mem[..], at, items)
    ensures !m ==> mem[..] == was
    decreases level, 0
  {
    hide LaidOut, Declarable, Terminated, Bound, Describes, ArrayBound, Size, Entered, Leaf, ToJson, FromJson, Splice;
    hide Inside;
    ghost var s, before := Size(level.elem), mem[..];
    NextInside(level, j, at, was);
    var element := if m then GetArrayItem(json.value.items, j) else None;
    if !m {
      ElementTerminated(level, was, at, j);
      assert before == was;
      assert mem[at + j * s..at + j * s + s] == before[at + j * s..at + j * s + s];
    }
    var child := BindElement(level.elem, base, m, element, mem, at, j, sub, tsize);
    StillTheSame(level.elem, m, element, before, mem[..], at + j * s, child);
    ArrayStep(level, j, m, json, was, before, mem[..], at, done, child);
    items := if m then done else done + [child];
  }

  /** Save a struct and load it into another of the same schema: every field comes back. */
  method SaveAndLoad(ty: Type, from: array<byte>, to: array<byte>) returns (node: Json)
    requires !ty.Array? && LaidOut(ty) && Declarable(ty) && DistinctNames(ty)
    requires from != to && from.Length == to.Length == Size(ty) && Terminated(ty, from[..])
    modifies from, to
    ensures from[..] == old(from[..]) && Same(ty, from[..], to[..])
  {
    hide LaidOut, Declarable, DistinctNames, Terminated, Same;
    ghost var src, dst := from[..], to[..];
    assert from[0..0 + Size(ty)] == src && to[0..0 + Size(ty)] == dst && src[0..0 + Size(ty)] == src;
    node := Bind(ty, false, None, from, 0);
    assert to[..] == dst && dst[0..0 + Size(ty)] == dst;
    var ignored := Bind(ty, true, Some(node), to, 0);
    RoundTrip(ty, src, dst);
    assert to[..] == FromJson(ty, Some(node), dst);
  }
}
