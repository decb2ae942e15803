/**
 The schema-driven binder between C structs and cJSON trees: what one field, struct or array becomes,
 and what reading it back gives. A struct is its byte image; a schema is what the macros of a STRUCT body say.
 */
module JsonSchema {
  import opened Alignment
  import opened Bytes
  import opened Options

  /** A cJSON node. Text is the bytes of `valuestring`, without the terminator. */
  datatype Json =
    | Null
    | Bool(b: bool)
    | Number(valueint: int)
    | Text(valuestring: seq<byte>)
    | List(items: seq<Json>)
    | Object(members: seq<Member>)

  datatype Member = Member(name: string, value: Json)

  /** What a field can be. `Int(w)` is int, short or char by its width, signed or not; `CharArray(n)` is
      STRING(..., n); ARRAY2 and ARRAY3 are arrays of arrays. */
  datatype Type =
    | Int(width: nat)
    | Hex64
    | CharArray(len: nat)
    | Struct(size: nat, fields: seq<Field>)
    | Array(elem: Type, dim: nat)

  datatype Field = Field(name: string, off: nat, ty: Type)

  function Size(ty: Type): (n: nat)
  {
    match ty
    case Int(w) => w
    case Hex64 => 8
    case CharArray(n) => n
    case Struct(n, _) => n
    case Array(e, d) => d * Size(e)
  }

  /** Fields lie inside their struct and do not overlap. */
  ghost predicate LaidOut(ty: Type)
  {
    match ty
    case Int(w) => w == 1 || w == 2 || w == 4
    case Hex64 => true
    case CharArray(n) => n > 0
    case Struct(n, fields) =>
      && (forall i :: 0 <= i < |fields| ==> LaidOut(fields[i].ty) && fields[i].off + Size(fields[i].ty) <= n)
      && (forall i, j :: 0 <= i < j < |fields| ==> Apart(fields[i], fields[j]))
    case Array(e, _) => LaidOut(e)
  }

  ghost predicate Apart(f: Field, g: Field)
  {
    f.off + Size(f.ty) <= g.off || g.off + Size(g.ty) <= f.off
  }

  // ---- leaves

  /** The unsigned number in little-endian bytes. */
  function LittleEndian(b: seq<byte>): nat
  {
    if b == [] then 0 else b[0] + 256 * LittleEndian(b[1..])
  }

  /** The low n bytes of x. */
  function LittleEndianBytes(x: nat, n: nat): (b: seq<byte>)
    ensures |b| == n
  {
    if n == 0 then [] else [x % 256] + LittleEndianBytes(x / 256, n - 1)
  }

  /** The value of a signed integer field. */
  function SignedValue(b: seq<byte>): int
  {
    var x, m := LittleEndian(b), Pow2(8 * |b|);
    if 2 * x >= m then x - m else x
  }

  /** Assigning an int to a field of n bytes keeps the low bytes. */
  function Truncated(v: int, n: nat): (b: seq<byte>)
    ensures |b| == n
  {
    LittleEndianBytes(Residue(v, Pow2(8 * n)), n)
  }

  lemma {:induction false} BytesRoundTrip(b: seq<byte>)
    ensures LittleEndianBytes(LittleEndian(b), |b|) == b
    ensures LittleEndian(b) < Pow2(8 * |b|)
  {
    if b != [] {
      hide Pow2;
      BytesRoundTrip(b[1..]);
      var x := LittleEndian(b);
      assert x % 256 == b[0] && x / 256 == LittleEndian(b[1..]);
      OneByteMore(|b| - 1);
    }
  }

  lemma OneByteMore(n: nat)
    ensures Pow2(8 * (n + 1)) == 256 * Pow2(8 * n)
  {
    Pow2Add(8, 8 * n);
    Pow2Values();
  }

  lemma IntRoundTrip(b: seq<byte>)
    ensures Truncated(SignedValue(b), |b|) == b
  {
    BytesRoundTrip(b);
    var x: int, m: int, v: int := LittleEndian(b), Pow2(8 * |b|), SignedValue(b);
    if v == x {
      ModUnique(v, m, 0, x);
    } else {
      assert v == (-1) * m + x;
      ModUnique(v, m, -1, x);
    }
    assert Residue(v, m) == x;
  }

  /** The value of a field, written out: little-endian two's complement, for char, short and int. */
  lemma SignedValueIs(b: seq<byte>)
    requires |b| == 1 || |b| == 2 || |b| == 4
    ensures var last: int := b[|b| - 1];
      SignedValue(b) == Sum(b) - if last < 128 then 0 else if |b| == 1 then 0x100 else if |b| == 2 then 0x1_0000
        else 0x1_0000_0000
  {
    Pow2Values();
    LittleEndianIs(b);
  }

  /** One, two or four bytes, least significant first. */
  function Sum(b: seq<byte>): nat
    requires |b| == 1 || |b| == 2 || |b| == 4
  {
    var b0: int := b[0];
    if |b| == 1 then b0
    else
      var b1: int := b[1];
      if |b| == 2 then b0 + 0x100 * b1
      else
        var b2: int, b3: int := b[2], b[3];
        b0 + 0x100 * b1 + 0x1_0000 * b2 + 0x100_0000 * b3
  }

  lemma LittleEndianIs(b: seq<byte>)
    requires |b| == 1 || |b| == 2 || |b| == 4
    ensures LittleEndian(b) == Sum(b)
  {
    assert LittleEndian(b) == b[0] + 256 * LittleEndian(b[1..]);
    if |b| >= 2 {
      assert LittleEndian(b[1..]) == b[1] + 256 * LittleEndian(b[1..][1..]) && b[1..][1..] == b[2..];
    }
    if |b| == 4 {
      assert LittleEndian(b[2..]) == b[2] + 256 * LittleEndian(b[2..][1..]) && b[2..][1..] == b[3..];
      assert LittleEndian(b[3..]) == b[3] + 256 * LittleEndian(b[3..][1..]) && b[3..][1..] == [];
    }
  }

  /** An int that does not fit loses its high bits: what is stored differs from it by a multiple of 2^(8n). */
  lemma {:induction false} TruncatedIs(v: int, n: nat)
    ensures LittleEndian(Truncated(v, n)) == v % Pow2(8 * n)
  {
    ResidueBytes(Residue(v, Pow2(8 * n)), n);
  }

  lemma {:induction false} ResidueBytes(x: nat, n: nat)
    requires x < Pow2(8 * n)
    ensures LittleEndian(LittleEndianBytes(x, n)) == x
  {
    hide Pow2;
    if n > 0 {
      OneByteMore(n - 1);
      ResidueBytes(x / 256, n - 1);
      var b := LittleEndianBytes(x, n);
      assert b[1..] == LittleEndianBytes(x / 256, n - 1);
    } else {
      Pow2Zero();
    }
  }

  lemma Pow2Zero()
    ensures Pow2(0) == 1
  {
  }

  /** A C string: the bytes before the first NUL. */
  function CString(b: seq<byte>): (s: seq<byte>)
    ensures |s| <= |b| && s == b[..|s|]
    ensures 0 !in s && (|s| < |b| ==> b[|s|] == 0)
    ensures 0 in b ==> |s| < |b|
  {
    if b == [] || b[0] == 0 then [] else [b[0]] + CString(b[1..])
  }

  /** `strncpy` into n bytes: cut off, or padded with NULs. */
  function StrNCpy(s: seq<byte>, n: nat): (b: seq<byte>)
    ensures |b| == n
  {
    if |s| >= n then s[..n] else s + seq(n - |s|, _ => 0)
  }

  lemma {:induction false} CStringUnique(b: seq<byte>, s: seq<byte>)
    requires |s| < |b| && s == b[..|s|] && 0 !in s && b[|s|] == 0
    ensures CString(b) == s
  {
    if s != [] {
      assert b[0] == s[0] && s[0] in s;
      CStringUnique(b[1..], s[1..]);
    }
  }

  lemma StringRoundTrip(b: seq<byte>)
    requires 0 in b
    ensures CString(StrNCpy(CString(b), |b|)) == CString(b)
  {
    CStringUnique(StrNCpy(CString(b), |b|), CString(b));
  }

  function HexDigit(d: nat): byte
    requires d < 16
  {
    if d < 10 then 0x30 + d else 0x61 + (d - 10)
  }

  /** `%llx` */
  function HexPrint(x: nat): (s: seq<byte>)
    ensures |s| > 0
  {
    if x < 16 then [HexDigit(x)] else HexPrint(x / 16) + [HexDigit(x % 16)]
  }

  function HexValue(c: byte): Option<nat>
  {
    if 0x30 <= c <= 0x39 then Some(c - 0x30)
    else if 0x61 <= c <= 0x66 then Some(c - 0x61 + 10)
    else if 0x41 <= c <= 0x46 then Some(c - 0x41 + 10)
    else None
  }

  /** The digits from the front of s, added to what acc already holds. */
  function HexDigits(s: seq<byte>, acc: nat): nat
  {
    if s == [] || HexValue(s[0]).None? then acc else HexDigits(s[1..], acc * 16 + HexValue(s[0]).value)
  }

  const UINT64_MAX: nat := 0xFFFF_FFFF_FFFF_FFFF

  /** `strtoull(s, NULL, 16)` on a digit string: stops at the first other character, saturates. */
  function HexParse(s: seq<byte>): (x: nat)
    ensures x <= UINT64_MAX
  {
    if HexDigits(s, 0) > UINT64_MAX then UINT64_MAX else HexDigits(s, 0)
  }

  /** `%llx` prints the digits 0-9a-f, and none in front that could be left out; parsing also knows A-F. */
  lemma {:induction false} HexPrintIs(x: nat)
    ensures var s := HexPrint(x);
      && (|s| > 1 ==> s[0] != '0' as int)
      && forall i :: 0 <= i < |s| ==> '0' as int <= s[i] <= '9' as int || 'a' as int <= s[i] <= 'f' as int
    ensures x < 16 ==> |HexPrint(x)| == 1 && "0123456789abcdef"[x] as int == HexPrint(x)[0]
    ensures x >= 16 ==> HexPrint(x) == HexPrint(x / 16) + HexPrint(x % 16)
  {
    if x >= 16 {
      HexPrintIs(x / 16);
      if x / 16 < 16 { assert HexPrint(x / 16) == [HexDigit(x / 16)]; }
    }
  }

  lemma HexValueIs(c: byte, d: nat)
    ensures HexValue(c) == Some(d) <==>
      d < 16 && (c == "0123456789abcdef"[d] as int || c == "0123456789ABCDEF"[d] as int)
  {
  }

  /** A number of more than 64 bits is read as the largest one. */
  lemma HexSaturates(s: seq<byte>)
    ensures HexDigits(s, 0) < 0x1_0000_0000_0000_0000 ==> HexParse(s) == HexDigits(s, 0)
    ensures HexDigits(s, 0) >= 0x1_0000_0000_0000_0000 ==> HexParse(s) == 0xFFFF_FFFF_FFFF_FFFF
  {
  }

  lemma {:induction false} HexDigitsAppend(s: seq<byte>, d: nat, acc: nat)
    requires d < 16 && forall i :: 0 <= i < |s| ==> HexValue(s[i]).Some?
    ensures HexDigits(s + [HexDigit(d)], acc) == HexDigits(s, acc) * 16 + d
    decreases |s|
  {
    var t := s + [HexDigit(d)];
    assert HexValue(HexDigit(d)) == Some(d);
    if s == [] {
      assert t[1..] == [];
    } else {
      assert t[1..] == s[1..] + [HexDigit(d)];
      HexDigitsAppend(s[1..], d, acc * 16 + HexValue(s[0]).value);
    }
  }

  lemma {:induction false} HexRoundTrip(x: nat)
    ensures HexDigits(HexPrint(x), 0) == x
    ensures forall i :: 0 <= i < |HexPrint(x)| ==> HexValue(HexPrint(x)[i]).Some?
  {
    if x < 16 {
      HexDigitsAppend([], x, 0);
      assert [] + [HexDigit(x)] == HexPrint(x);
    } else {
      HexRoundTrip(x / 16);
      HexDigitsAppend(HexPrint(x / 16), x % 16, 0);
      assert HexValue(HexDigit(x % 16)).Some?;
    }
  }

  // ---- trees

  function Lower(s: string): (r: string)
    ensures |r| == |s|
  {
    seq(|s|, i requires 0 <= i < |s| => if 'A' <= s[i] <= 'Z' then s[i] - 'A' + 'a' else s[i])
  }

  predicate SameName(a: string, b: string) { Lower(a) == Lower(b) }

  /** Equal length, and in each place the same character or one ASCII letter in its two cases. */
  ghost predicate Alike(a: string, b: string)
  {
    && |a| == |b|
    && forall i :: 0 <= i < |a| ==>
         || a[i] == b[i]
         || ('A' <= a[i] <= 'Z' && b[i] as int == a[i] as int + 32)
         || ('A' <= b[i] <= 'Z' && a[i] as int == b[i] as int + 32)
  }

  lemma SameNameIs(a: string, b: string)
    ensures SameName(a, b) <==> Alike(a, b)
  {
    if SameName(a, b) {
      forall i | 0 <= i < |a|
        ensures || a[i] == b[i]
                || ('A' <= a[i] <= 'Z' && b[i] as int == a[i] as int + 32)
                || ('A' <= b[i] <= 'Z' && a[i] as int == b[i] as int + 32)
      {
        assert Lower(a)[i] == Lower(b)[i];
      }
    }
    if Alike(a, b) {
      assert Lower(a) == Lower(b);
    }
  }

  /** `cJSON_GetObjectItem`: the first child with that name, ignoring case. */
  function Find(members: seq<Member>, name: string): (r: Option<Json>)
  {
    if members == [] then None
    else if SameName(members[0].name, name) then Some(members[0].value)
    else Find(members[1..], name)
  }

  function GetObjectItem(j: Json, name: string): Option<Json>
  {
    if j.Object? then Find(j.members, name) else None
  }

  /** `cJSON_GetArrayItem` */
  function GetArrayItem(items: seq<Json>, i: nat): Option<Json>
  {
    if i < |items| then Some(items[i]) else None
  }

  lemma ElementBounds(s: nat, k: nat)
    requires k > 0
    ensures (k - 1) * s + s == k * s && 0 <= (k - 1) * s
  {
  }

  /** The bytes of one field. */
  function Slice(f: Field, b: seq<byte>): (r: seq<byte>)
    requires f.off + Size(f.ty) <= |b|
    ensures |r| == Size(f.ty)
  {
    b[f.off..f.off + Size(f.ty)]
  }

  /** b with the bytes from `at` on replaced by x. */
  function Splice(b: seq<byte>, at: nat, x: seq<byte>): (r: seq<byte>)
    requires at + |x| <= |b|
    ensures |r| == |b|
  {
    b[..at] + x + b[at + |x|..]
  }

  /** Struct to JSON. */
  function ToJson(ty: Type, b: seq<byte>): (j: Json)
    requires LaidOut(ty) && |b| == Size(ty)
    decreases ty, 1, 0
  {
    match ty
    case Int(_) => Number(SignedValue(b))
    case Hex64 => Text(HexPrint(LittleEndian(b)))
    case CharArray(_) => Text(CString(b))
    case Struct(_, fields) => Object(ToMembers(ty, |fields|, b))
    case Array(e, d) => List(ToItems(ty, d, b))
  }

  /** The first k fields of a struct. */
  function ToMembers(ty: Type, k: nat, b: seq<byte>): (m: seq<Member>)
    requires LaidOut(ty) && ty.Struct? && k <= |ty.fields| && |b| == Size(ty)
    ensures |m| == k
    ensures forall i :: 0 <= i < k ==> m[i].name == ty.fields[i].name
    decreases ty, 0, k
  {
    if k == 0 then [] else
      var f := ty.fields[k - 1];
      ToMembers(ty, k - 1, b) + [Member(f.name, ToJson(f.ty, Slice(f, b)))]
  }

  /** The first k elements of an array. */
  function ToItems(ty: Type, k: nat, b: seq<byte>): (items: seq<Json>)
    requires LaidOut(ty) && ty.Array? && |b| == k * Size(ty.elem)
    ensures |items| == k
    decreases ty, 0, k
  {
    if k == 0 then [] else
      var s := Size(ty.elem);
      ElementBounds(s, k);
      ToItems(ty, k - 1, b[..(k - 1) * s]) + [ToJson(ty.elem, b[(k - 1) * s..])]
  }

  /** JSON to struct: the new image of a field of type ty whose old image is b; an absent node changes nothing. */
  function FromJson(ty: Type, j: Option<Json>, b: seq<byte>): (r: seq<byte>)
    requires LaidOut(ty) && |b| == Size(ty)
    ensures |r| == |b|
    decreases ty, 1, 0
  {
    if j.None? then b else
      match ty
      case Int(w) => if j.value.Number? then Truncated(j.value.valueint, w) else b
      case Hex64 => if j.value.Text? then LittleEndianBytes(HexParse(j.value.valuestring), 8) else b
      case CharArray(n) => if j.value.Text? then StrNCpy(j.value.valuestring, n) else b
      case Struct(_, fields) => FromMembers(ty, |fields|, j.value, b)
      case Array(_, d) => if j.value.List? then FromItems(ty, d, j.value.items, b) else b
  }

  function FromMembers(ty: Type, k: nat, j: Json, b: seq<byte>): (r: seq<byte>)
    requires LaidOut(ty) && ty.Struct? && k <= |ty.fields| && |b| == Size(ty)
    ensures |r| == |b|
    decreases ty, 0, k
  {
    if k == 0 then b else
      var f := ty.fields[k - 1];
      var r := FromMembers(ty, k - 1, j, b);
      Splice(r, f.off, FromJson(f.ty, GetObjectItem(j, f.name), Slice(f, r)))
  }

  function FromItems(ty: Type, k: nat, items: seq<Json>, b: seq<byte>): (r: seq<byte>)
    requires LaidOut(ty) && ty.Array? && |b| == k * Size(ty.elem)
    ensures |r| == |b|
    decreases ty, 0, k
  {
    if k == 0 then [] else
      var s := Size(ty.elem);
      ElementBounds(s, k);
      FromItems(ty, k - 1, items, b[..(k - 1) * s]) + FromJson(ty.elem, GetArrayItem(items, k - 1), b[(k - 1) * s..])
  }
}
