/** What survives a struct -> JSON -> struct round trip, for every schema; and where array cells live. */
module JsonRoundTrip {
  import opened Bytes
  import opened JsonSchema
  import opened Options

  /** No two fields of a struct, at any depth, have names that differ only in case. */
  ghost predicate DistinctNames(ty: Type)
  {
    match ty
    case Struct(_, fields) =>
      && (forall i :: 0 <= i < |fields| ==> DistinctNames(fields[i].ty))
      && (forall i, j :: 0 <= i < j < |fields| ==> !SameName(fields[i].name, fields[j].name))
    case Array(e, _) => DistinctNames(e)
    case _ => true
  }

  /** Every string field holds its terminator. */
  ghost predicate Terminated(ty: Type, b: seq<byte>)
    requires LaidOut(ty) && |b| == Size(ty)
    decreases ty, 1, 0
  {
    match ty
    case CharArray(_) => 0 in b
    case Struct(_, fields) => forall i :: 0 <= i < |fields| ==> Terminated(fields[i].ty, Slice(fields[i], b))
    case Array(_, d) => ItemsTerminated(ty, d, b)
    case _ => true
  }

  ghost predicate ItemsTerminated(ty: Type, k: nat, b: seq<byte>)
    requires LaidOut(ty) && ty.Array? && |b| == k * Size(ty.elem)
    decreases ty, 0, k
  {
    k == 0 ||
    var s := Size(ty.elem);
    ElementBounds(s, k);
    ItemsTerminated(ty, k - 1, b[..(k - 1) * s]) && Terminated(ty.elem, b[(k - 1) * s..])
  }

  /** The same value in every field: numbers bit for bit, strings up to their terminator. */
  ghost predicate Same(ty: Type, a: seq<byte>, b: seq<byte>)
    requires LaidOut(ty) && |a| == |b| == Size(ty)
    decreases ty, 1, 0
  {
    match ty
    case Int(_) => a == b
    case Hex64 => a == b
    case CharArray(_) => CString(a) == CString(b)
    case Struct(_, fields) =>
      forall i :: 0 <= i < |fields| ==> Same(fields[i].ty, Slice(fields[i], a), Slice(fields[i], b))
    case Array(_, d) => SameItems(ty, d, a, b)
  }

  ghost predicate SameItems(ty: Type, k: nat, a: seq<byte>, b: seq<byte>)
    requires LaidOut(ty) && ty.Array? && |a| == |b| == k * Size(ty.elem)
    decreases ty, 0, k
  {
    k == 0 ||
    var s := Size(ty.elem);
    ElementBounds(s, k);
    SameItems(ty, k - 1, a[..(k - 1) * s], b[..(k - 1) * s]) && Same(ty.elem, a[(k - 1) * s..], b[(k - 1) * s..])
  }

  // ---- members

  lemma {:induction false} MemberAt(ty: Type, k: nat, b: seq<byte>, i: nat)
    requires LaidOut(ty) && ty.Struct? && i < k <= |ty.fields| && |b| == Size(ty)
    ensures ToMembers(ty, k, b)[i] == Member(ty.fields[i].name, ToJson(ty.fields[i].ty, Slice(ty.fields[i], b)))
  {
    if i < k - 1 {
      MemberAt(ty, k - 1, b, i);
    }
  }

  lemma {:induction false} FindFirst(members: seq<Member>, name: string, i: nat)
    requires i < |members| && SameName(members[i].name, name)
    requires forall j :: 0 <= j < i ==> !SameName(members[j].name, name)
    ensures Find(members, name) == Some(members[i].value)
    decreases i
  {
    if i > 0 {
      FindFirst(members[1..], name, i - 1);
    }
  }

  /** Each field is bound on its own: from its own member, to its own bytes. */
  lemma {:induction false} FieldBound(ty: Type, k: nat, j: Json, b: seq<byte>, i: nat)
    requires LaidOut(ty) && ty.Struct? && k <= |ty.fields| && i < |ty.fields| && |b| == Size(ty)
    ensures var f := ty.fields[i];
      Slice(f, FromMembers(ty, k, j, b))
      == if i < k then FromJson(f.ty, GetObjectItem(j, f.name), Slice(f, b)) else Slice(f, b)
    decreases k
  {
    hide FromJson, LaidOut, GetObjectItem, Splice, Size, Slice, FromMembers;
    FieldInside(ty, i);
    if k > 0 {
      var f, g := ty.fields[i], ty.fields[k - 1];
      FieldInside(ty, k - 1);
      FieldBound(ty, k - 1, j, b, i);
      FieldBound(ty, k - 1, j, b, k - 1);
      FromMembersMore(ty, k - 1, j, b);
      var r := FromMembers(ty, k - 1, j, b);
      var x := FromJson(g.ty, GetObjectItem(j, g.name), Slice(g, r));
      if i != k - 1 {
        FieldsApart(ty, i, k - 1);
        SpliceElsewhere(r, g, x, f);
      } else {
        SpliceThere(r, g, x);
      }
    } else {
      FromNoMembers(ty, j, b);
    }
  }

  lemma FromNoMembers(ty: Type, j: Json, b: seq<byte>)
    requires LaidOut(ty) && ty.Struct? && |b| == Size(ty)
    ensures FromMembers(ty, 0, j, b) == b
  {
  }

  lemma FromMembersMore(ty: Type, k: nat, j: Json, b: seq<byte>)
    requires ty.Struct? && LaidOut(ty) && k < |ty.fields| && |b| == Size(ty)
    requires LaidOut(ty.fields[k].ty) && ty.fields[k].off + Size(ty.fields[k].ty) <= Size(ty)
    ensures var f, r := ty.fields[k], FromMembers(ty, k, j, b);
      FromMembers(ty, k + 1, j, b) == Splice(r, f.off, FromJson(f.ty, GetObjectItem(j, f.name), Slice(f, r)))
  {
  }

  lemma FieldInside(ty: Type, i: nat)
    requires LaidOut(ty) && ty.Struct? && i < |ty.fields|
    ensures LaidOut(ty.fields[i].ty) && ty.fields[i].off + Size(ty.fields[i].ty) <= Size(ty) == ty.size
  {
  }

  lemma FieldsApart(ty: Type, i: nat, j: nat)
    requires LaidOut(ty) && ty.Struct? && i < |ty.fields| && j < |ty.fields| && i != j
    ensures Apart(ty.fields[i], ty.fields[j])
  {
    if i < j {
      assert Apart(ty.fields[i], ty.fields[j]);
    } else {
      assert Apart(ty.fields[j], ty.fields[i]);
    }
  }

  lemma SpliceElsewhere(r: seq<byte>, g: Field, x: seq<byte>, f: Field)
    requires |x| == Size(g.ty) && g.off + |x| <= |r| && f.off + Size(f.ty) <= |r| && Apart(f, g)
    ensures Slice(f, Splice(r, g.off, x)) == Slice(f, r)
  {
  }

  lemma SpliceThere(r: seq<byte>, g: Field, x: seq<byte>)
    requires |x| == Size(g.ty) && g.off + |x| <= |r|
    ensures Slice(g, Splice(r, g.off, x)) == x
  {
  }

  /** A key that is absent, or a tree that is not an object, leaves the field as it was. */
  lemma AbsentKeyKeeps(ty: Type, j: Json, b: seq<byte>, i: nat)
    requires LaidOut(ty) && ty.Struct? && i < |ty.fields| && |b| == Size(ty)
    requires GetObjectItem(j, ty.fields[i].name) == None
    ensures Slice(ty.fields[i], FromJson(ty, Some(j), b)) == Slice(ty.fields[i], b)
  {
    FieldBound(ty, |ty.fields|, j, b, i);
  }

  /** The field is bound from the first member with its name, whatever the case of the letters. */
  lemma BoundFromFirst(ty: Type, members: seq<Member>, b: seq<byte>, i: nat, k: nat)
    requires LaidOut(ty) && ty.Struct? && i < |ty.fields| && |b| == Size(ty)
    requires k < |members| && Alike(members[k].name, ty.fields[i].name)
    requires forall l :: 0 <= l < k ==> !Alike(members[l].name, ty.fields[i].name)
    ensures var f := ty.fields[i];
      Slice(f, FromJson(ty, Some(Object(members)), b)) == FromJson(f.ty, Some(members[k].value), Slice(f, b))
  {
    var f := ty.fields[i];
    SameNameIs(members[k].name, f.name);
    forall l | 0 <= l < k ensures !SameName(members[l].name, f.name) { SameNameIs(members[l].name, f.name); }
    FindFirst(members, f.name, k);
    FieldBound(ty, |ty.fields|, Object(members), b, i);
  }

  /** And keeps its bytes when no member has that name. */
  lemma KeptWithoutMember(ty: Type, members: seq<Member>, b: seq<byte>, i: nat)
    requires LaidOut(ty) && ty.Struct? && i < |ty.fields| && |b| == Size(ty)
    requires forall l :: 0 <= l < |members| ==> !Alike(members[l].name, ty.fields[i].name)
    ensures Slice(ty.fields[i], FromJson(ty, Some(Object(members)), b)) == Slice(ty.fields[i], b)
  {
    var f := ty.fields[i];
    forall l | 0 <= l < |members| ensures !SameName(members[l].name, f.name) { SameNameIs(members[l].name, f.name); }
    FindNone(members, f.name);
    AbsentKeyKeeps(ty, Object(members), b, i);
  }

  lemma {:induction false} FindNone(members: seq<Member>, name: string)
    requires forall l :: 0 <= l < |members| ==> !SameName(members[l].name, name)
    ensures Find(members, name) == None
  {
    if members != [] { FindNone(members[1..], name); }
  }

  /** A node of the wrong kind leaves a field as it was: not a number for an integer, not a text for a string or a
      uint64, not a list for an array. */
  lemma WrongKindKeeps(ty: Type, j: Json, b: seq<byte>)
    requires LaidOut(ty) && |b| == Size(ty) && !ty.Struct?
    requires ty.Int? ==> !j.Number?
    requires ty.CharArray? || ty.Hex64? ==> !j.Text?
    requires ty.Array? ==> !j.List?
    ensures FromJson(ty, Some(j), b) == b
  {
  }

  /** Padding is never written. */
  lemma {:induction false} PaddingKept(ty: Type, k: nat, j: Json, b: seq<byte>, p: nat)
    requires LaidOut(ty) && ty.Struct? && k <= |ty.fields| && p < |b| == Size(ty)
    requires forall i :: 0 <= i < k ==> !(ty.fields[i].off <= p < ty.fields[i].off + Size(ty.fields[i].ty))
    ensures FromMembers(ty, k, j, b)[p] == b[p]
    decreases k
  {
    if k > 0 {
      PaddingKept(ty, k - 1, j, b, p);
    }
  }

  // ---- the round trip

  /** Binding a struct to JSON and back, into any old contents, restores every field of every schema. */
  lemma {:induction false} RoundTrip(ty: Type, src: seq<byte>, dst: seq<byte>)
    requires LaidOut(ty) && DistinctNames(ty) && |src| == |dst| == Size(ty) && Terminated(ty, src)
    ensures Same(ty, src, FromJson(ty, Some(ToJson(ty, src)), dst))
    decreases ty, 1, 0
  {
    match ty
    case Int(_) => IntRoundTrip(src);
    case Hex64 =>
      BytesRoundTrip(src);
      HexRoundTrip(LittleEndian(src));
      assert Pow2(64) == 0x1_0000_0000_0000_0000 by { Pow2Values(); Pow2Add(32, 32); }
    case CharArray(_) => StringRoundTrip(src);
    case Struct(_, fields) =>
      var j := ToJson(ty, src);
      forall i | 0 <= i < |fields|
        ensures Same(fields[i].ty, Slice(fields[i], src), Slice(fields[i], FromJson(ty, Some(j), dst)))
      {
        MemberRoundTrip(ty, src, dst, i);
      }
    case Array(_, d) => ItemsRoundTrip(ty, d, ToItems(ty, d, src), src, dst);
  }

  lemma MemberRoundTrip(ty: Type, src: seq<byte>, dst: seq<byte>, i: nat)
    requires LaidOut(ty) && DistinctNames(ty) && |src| == |dst| == Size(ty) && Terminated(ty, src)
    requires ty.Struct? && i < |ty.fields|
    ensures var f := ty.fields[i];
      Same(f.ty, Slice(f, src), Slice(f, FromJson(ty, Some(ToJson(ty, src)), dst)))
    decreases ty, 0, 0
  {
    var f, n := ty.fields[i], |ty.fields|;
    var members := ToMembers(ty, n, src);
    MemberAt(ty, n, src, i);
    FindFirst(members, f.name, i);
    FieldBound(ty, n, Object(members), dst, i);
    RoundTrip(f.ty, Slice(f, src), Slice(f, dst));
  }

  lemma {:induction false} ItemsRoundTrip(ty: Type, k: nat, items: seq<Json>, src: seq<byte>, dst: seq<byte>)
    requires LaidOut(ty) && ty.Array? && DistinctNames(ty) && |src| == |dst| == k * Size(ty.elem)
    requires ItemsTerminated(ty, k, src) && k <= |items| && items[..k] == ToItems(ty, k, src)
    ensures SameItems(ty, k, src, FromItems(ty, k, items, dst))
    decreases ty, 0, k
  {
    if k > 0 {
      var s := Size(ty.elem);
      ElementBounds(s, k);
      var m := (k - 1) * s;
      assert items[..k - 1] == ToItems(ty, k, src)[..k - 1] == ToItems(ty, k - 1, src[..m]);
      ItemsRoundTrip(ty, k - 1, items, src[..m], dst[..m]);
      assert items[k - 1] == items[..k][k - 1] == ToJson(ty.elem, src[m..]);
      RoundTrip(ty.elem, src[m..], dst[m..]);
      var r := FromItems(ty, k, items, dst);
      assert r[..m] == FromItems(ty, k - 1, items, dst[..m]);
      assert r[m..] == FromJson(ty.elem, Some(items[k - 1]), dst[m..]);
    }
  }

  /** Two images with the same fields give the same tree; so saving, loading and saving again changes nothing. */
  lemma {:induction false} SameGivesSameJson(ty: Type, a: seq<byte>, b: seq<byte>)
    requires LaidOut(ty) && |a| == |b| == Size(ty) && Same(ty, a, b)
    ensures ToJson(ty, a) == ToJson(ty, b)
    decreases ty, 1, 0
  {
    match ty
    case Struct(_, fields) => MembersSame(ty, |fields|, a, b);
    case Array(_, d) => ItemsSame(ty, d, a, b);
    case _ =>
  }

  lemma {:induction false} MembersSame(ty: Type, k: nat, a: seq<byte>, b: seq<byte>)
    requires LaidOut(ty) && ty.Struct? && k <= |ty.fields| && |a| == |b| == Size(ty) && Same(ty, a, b)
    ensures ToMembers(ty, k, a) == ToMembers(ty, k, b)
    decreases ty, 0, k
  {
    hide LaidOut;
    if k > 0 {
      var f := ty.fields[k - 1];
      FieldInside(ty, k - 1);
      MembersSame(ty, k - 1, a, b);
      SameGivesSameJson(f.ty, Slice(f, a), Slice(f, b));
    }
  }

  lemma {:induction false} ItemsSame(ty: Type, k: nat, a: seq<byte>, b: seq<byte>)
    requires LaidOut(ty) && ty.Array? && |a| == |b| == k * Size(ty.elem) && SameItems(ty, k, a, b)
    ensures ToItems(ty, k, a) == ToItems(ty, k, b)
    decreases ty, 0, k
  {
    if k > 0 {
      var s := Size(ty.elem);
      ElementBounds(s, k);
      ItemsSame(ty, k - 1, a[..(k - 1) * s], b[..(k - 1) * s]);
      SameGivesSameJson(ty.elem, a[(k - 1) * s..], b[(k - 1) * s..]);
    }
  }

  /** `Same` is an equivalence: what agrees with a agrees with b exactly when a agrees with b. */
  lemma {:induction false} SameTransfers(ty: Type, a: seq<byte>, b: seq<byte>, c: seq<byte>)
    requires LaidOut(ty) && |a| == |b| == |c| == Size(ty) && Same(ty, a, c)
    ensures Same(ty, a, b) <==> Same(ty, b, c)
    decreases ty, 1, 0
  {
    match ty
    case Struct(_, fields) =>
      forall i | 0 <= i < |fields|
        ensures Same(fields[i].ty, Slice(fields[i], a), Slice(fields[i], b))
          <==> Same(fields[i].ty, Slice(fields[i], b), Slice(fields[i], c))
      {
        SameTransfers(fields[i].ty, Slice(fields[i], a), Slice(fields[i], b), Slice(fields[i], c));
      }
    case Array(_, d) => ItemsTransfer(ty, d, a, b, c);
    case _ =>
  }

  lemma {:induction false} ItemsTransfer(ty: Type, k: nat, a: seq<byte>, b: seq<byte>, c: seq<byte>)
    requires LaidOut(ty) && ty.Array? && |a| == |b| == |c| == k * Size(ty.elem) && SameItems(ty, k, a, c)
    ensures SameItems(ty, k, a, b) <==> SameItems(ty, k, b, c)
    decreases ty, 0, k
  {
    if k > 0 {
      var s := Size(ty.elem);
      ElementBounds(s, k);
      var m := (k - 1) * s;
      ItemsTransfer(ty, k - 1, a[..m], b[..m], c[..m]);
      SameTransfers(ty.elem, a[m..], b[m..], c[m..]);
    }
  }

  /** Distinct names are needed. When field j has, up to case, the name of an earlier field i and of none before i, it
      comes back as what field i was; for two fields of one type that is right exactly when they held the same. */
  lemma CollidingNames(ty: Type, src: seq<byte>, dst: seq<byte>, i: nat, j: nat)
    requires LaidOut(ty) && |src| == |dst| == Size(ty) && ty.Struct? && i < j < |ty.fields|
    requires SameName(ty.fields[i].name, ty.fields[j].name)
    requires forall k :: 0 <= k < i ==> !SameName(ty.fields[k].name, ty.fields[j].name)
    ensures var f, g, out := ty.fields[i], ty.fields[j], FromJson(ty, Some(ToJson(ty, src)), dst);
      && Slice(g, out) == FromJson(g.ty, Some(ToJson(f.ty, Slice(f, src))), Slice(g, dst))
      && (f.ty == g.ty && DistinctNames(f.ty) && Terminated(f.ty, Slice(f, src)) ==>
        (Same(g.ty, Slice(g, src), Slice(g, out)) <==> Same(g.ty, Slice(f, src), Slice(g, src))))
  {
    hide LaidOut, Slice;
    var f, g, n := ty.fields[i], ty.fields[j], |ty.fields|;
    FieldInside(ty, i);
    FieldInside(ty, j);
    var members := ToMembers(ty, n, src);
    MemberAt(ty, n, src, i);
    FindFirst(members, g.name, i);
    FieldBound(ty, n, Object(members), dst, j);
    if f.ty == g.ty && DistinctNames(f.ty) && Terminated(f.ty, Slice(f, src)) {
      var out := FromJson(ty, Some(ToJson(ty, src)), dst);
      RoundTrip(f.ty, Slice(f, src), Slice(g, dst));
      SameTransfers(g.ty, Slice(f, src), Slice(g, src), Slice(g, out));
    }
  }

  // ---- terminators

  /** The child of an object, and the item of a list, if there is one. */
  function Child(j: Option<Json>, name: string): Option<Json>
  {
    if j.Some? then GetObjectItem(j.value, name) else None
  }

  function Item(j: Option<Json>, i: nat): Option<Json>
  {
    if j.Some? && j.value.List? then GetArrayItem(j.value.items, i) else None
  }

  /** Every text the tree has for a string field is shorter than the field, and the other string fields already have
      their terminator. */
  ghost predicate TextsFit(ty: Type, j: Option<Json>, b: seq<byte>)
    requires LaidOut(ty) && |b| == Size(ty)
    decreases ty, 1, 0
  {
    match ty
    case CharArray(n) => if j.Some? && j.value.Text? then |CString(j.value.valuestring)| < n else 0 in b
    case Struct(_, fields) =>
      forall i :: 0 <= i < |fields| ==> TextsFit(fields[i].ty, Child(j, fields[i].name), Slice(fields[i], b))
    case Array(_, d) => ItemsFit(ty, d, j, b)
    case _ => true
  }

  ghost predicate ItemsFit(ty: Type, k: nat, j: Option<Json>, b: seq<byte>)
    requires LaidOut(ty) && ty.Array? && |b| == k * Size(ty.elem)
    decreases ty, 0, k
  {
    k == 0 ||
    var s := Size(ty.elem);
    ElementBounds(s, k);
    ItemsFit(ty, k - 1, j, b[..(k - 1) * s]) && TextsFit(ty.elem, Item(j, k - 1), b[(k - 1) * s..])
  }

  /** After loading any tree every string field has its terminator, so that the struct can be saved again, if and only
      if no text is as long as its field: `strncpy` writes none behind a text that fills it. */
  lemma {:induction false} LoadTerminates(ty: Type, j: Option<Json>, b: seq<byte>)
    requires LaidOut(ty) && |b| == Size(ty)
    ensures Terminated(ty, FromJson(ty, j, b)) <==> TextsFit(ty, j, b)
    decreases ty, 1, 0
  {
    match ty
    case CharArray(n) =>
      if j.Some? && j.value.Text? { StrNCpyTerminates(j.value.valuestring, n); }
    case Struct(_, fields) =>
      forall i | 0 <= i < |fields|
        ensures Terminated(fields[i].ty, Slice(fields[i], FromJson(ty, j, b)))
          <==> TextsFit(fields[i].ty, Child(j, fields[i].name), Slice(fields[i], b))
      {
        FieldLoaded(ty, j, b, i);
        LoadTerminates(fields[i].ty, Child(j, fields[i].name), Slice(fields[i], b));
      }
    case Array(_, d) => ItemsTerminate(ty, d, j, b);
    case _ =>
  }

  lemma FieldLoaded(ty: Type, j: Option<Json>, b: seq<byte>, i: nat)
    requires LaidOut(ty) && ty.Struct? && i < |ty.fields| && |b| == Size(ty)
    ensures var f := ty.fields[i];
      Slice(f, FromJson(ty, j, b)) == FromJson(f.ty, Child(j, f.name), Slice(f, b))
  {
    if j.Some? { FieldBound(ty, |ty.fields|, j.value, b, i); }
  }

  /** The items of an array as loaded from j, a list or not. */
  function Loaded(ty: Type, k: nat, j: Option<Json>, b: seq<byte>): (r: seq<byte>)
    requires LaidOut(ty) && ty.Array? && |b| == k * Size(ty.elem)
    ensures |r| == |b|
  {
    if j.Some? && j.value.List? then FromItems(ty, k, j.value.items, b) else b
  }

  lemma {:induction false} ItemsTerminate(ty: Type, k: nat, j: Option<Json>, b: seq<byte>)
    requires LaidOut(ty) && ty.Array? && |b| == k * Size(ty.elem)
    ensures ItemsTerminated(ty, k, Loaded(ty, k, j, b)) <==> ItemsFit(ty, k, j, b)
    decreases ty, 0, k
  {
    if k > 0 {
      var s := Size(ty.elem);
      ElementBounds(s, k);
      var m := (k - 1) * s;
      ItemsTerminate(ty, k - 1, j, b[..m]);
      LoadTerminates(ty.elem, Item(j, k - 1), b[m..]);
      assert Loaded(ty, k, j, b)[..m] == Loaded(ty, k - 1, j, b[..m]);
      assert Loaded(ty, k, j, b)[m..] == FromJson(ty.elem, Item(j, k - 1), b[m..]);
    }
  }

  lemma StrNCpyTerminates(s: seq<byte>, n: nat)
    ensures 0 in StrNCpy(s, n) <==> |CString(s)| < n
  {
    var c, r := CString(s), StrNCpy(s, n);
    if |c| < n {
      assert r[|c|] == 0;
    } else {
      assert r == c[..n];
    }
  }

  /** What was saved fits when it is loaded: the same fields, with their terminators. */
  lemma {:induction false} SameTerminated(ty: Type, a: seq<byte>, b: seq<byte>)
    requires LaidOut(ty) && |a| == |b| == Size(ty) && Same(ty, a, b) && Terminated(ty, a)
    ensures Terminated(ty, b)
    decreases ty, 1, 0
  {
    match ty
    case Struct(_, fields) =>
      forall i | 0 <= i < |fields| ensures Terminated(fields[i].ty, Slice(fields[i], b)) {
        SameTerminated(fields[i].ty, Slice(fields[i], a), Slice(fields[i], b));
      }
    case Array(_, d) => ItemsSameTerminated(ty, d, a, b);
    case _ =>
  }

  lemma {:induction false} ItemsSameTerminated(ty: Type, k: nat, a: seq<byte>, b: seq<byte>)
    requires LaidOut(ty) && ty.Array? && |a| == |b| == k * Size(ty.elem)
    requires SameItems(ty, k, a, b) && ItemsTerminated(ty, k, a)
    ensures ItemsTerminated(ty, k, b)
    decreases ty, 0, k
  {
    if k > 0 {
      var s := Size(ty.elem);
      ElementBounds(s, k);
      ItemsSameTerminated(ty, k - 1, a[..(k - 1) * s], b[..(k - 1) * s]);
      SameTerminated(ty.elem, a[(k - 1) * s..], b[(k - 1) * s..]);
    }
  }

  /** So a struct loaded from what was saved can be saved again, and gives the same tree. */
  lemma SavesAgain(ty: Type, src: seq<byte>, dst: seq<byte>)
    requires LaidOut(ty) && DistinctNames(ty) && |src| == |dst| == Size(ty) && Terminated(ty, src)
    ensures var again := FromJson(ty, Some(ToJson(ty, src)), dst);
      Terminated(ty, again) && ToJson(ty, again) == ToJson(ty, src)
  {
    RoundTrip(ty, src, dst);
    SameTerminated(ty, src, FromJson(ty, Some(ToJson(ty, src)), dst));
    SameGivesSameJson(ty, src, FromJson(ty, Some(ToJson(ty, src)), dst));
  }
}
