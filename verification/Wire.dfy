/** Byte buffers: little- and big-endian fields at an offset, and a cursor that is moved past what has been read. */
module Wire {
  import opened Machine
  import opened Wrappers

  // ---- Numbers as bytes ----

  function Le(n: nat, width: nat): (b: Bytes)
    ensures |b| == width
    decreases width
  {
    if width == 0 then [] else [n % 256] + Le(n / 256, width - 1)
  }

  function FromLe(b: Bytes): nat { if b == [] then 0 else b[0] + 256 * FromLe(b[1..]) }

  function Be(n: nat, width: nat): (b: Bytes)
    ensures |b| == width
    decreases width
  {
    if width == 0 then [] else Be(n / 256, width - 1) + [n % 256]
  }

  function FromBe(b: Bytes): nat { if b == [] then 0 else 256 * FromBe(b[..|b| - 1]) + b[|b| - 1] }

  ghost function Pow256(k: nat): nat { if k == 0 then 1 else 256 * Pow256(k - 1) }

  /** Every number that fits is read back from its bytes. */
  lemma {:induction false} LeInverse(n: nat, width: nat)
    requires n < Pow256(width)
    ensures FromLe(Le(n, width)) == n
    decreases width
  {
    if width > 0 {
      LeInverse(n / 256, width - 1);
      assert Le(n, width)[1..] == Le(n / 256, width - 1);
    }
  }

  lemma {:induction false} BeInverse(n: nat, width: nat)
    requires n < Pow256(width)
    ensures FromBe(Be(n, width)) == n
    decreases width
  {
    if width > 0 {
      BeInverse(n / 256, width - 1);
      assert Be(n, width)[..width - 1] == Be(n / 256, width - 1);
    }
  }

  lemma {:induction false} LeBound(b: Bytes)
    ensures FromLe(b) < Pow256(|b|)
    decreases |b|
  {
    if b != [] { LeBound(b[1..]); }
  }

  lemma {:induction false} BeBound(b: Bytes)
    ensures FromBe(b) < Pow256(|b|)
    decreases |b|
  {
    if b != [] { BeBound(b[..|b| - 1]); }
  }

  lemma Widths()
    ensures Pow256(1) == 0x100 && Pow256(2) == 0x1_0000 && Pow256(4) == 0x1_0000_0000 && Pow256(6) == 0x1_0000_0000_0000
  {
    assert Pow256(3) == 256 * Pow256(2);
    assert Pow256(5) == 256 * Pow256(4);
  }

  // ---- Fields ----

  /** The `n` bytes at an offset, if they are all there. */
  function BytesAt(b: Bytes, offset: int, n: nat): (r: Option<Bytes>)
    ensures r.Some? <==> 0 <= offset && offset + n <= |b|
    ensures r.Some? ==> |r.value| == n
  {
    if offset < 0 || offset + n > |b| then None else Some(b[offset..offset + n])
  }

  function Le16At(b: Bytes, offset: int): (r: Option<U16>)
    ensures r.Some? <==> 0 <= offset && offset + 2 <= |b|
  {
    match BytesAt(b, offset, 2)
    case None => None
    case Some(f) => Widths(); LeBound(f); Some(FromLe(f))
  }

  function Le32At(b: Bytes, offset: int): (r: Option<U32>)
    ensures r.Some? <==> 0 <= offset && offset + 4 <= |b|
  {
    match BytesAt(b, offset, 4)
    case None => None
    case Some(f) => Widths(); LeBound(f); Some(FromLe(f))
  }

  function AddrAt(b: Bytes, offset: int): (r: Option<Addr>)
    ensures r.Some? <==> 0 <= offset && offset + 6 <= |b|
  {
    match BytesAt(b, offset, 6)
    case None => None
    case Some(f) => Widths(); BeBound(f); Some(FromBe(f))
  }

  function U8At(b: Bytes, offset: int): (r: Option<U8>)
    ensures r.Some? <==> 0 <= offset < |b|
  {
    if offset < 0 || offset + 1 > |b| then None else Some(b[offset])
  }

  /** A string after its length byte, cut to `max` bytes. */
  function IntStringAt(b: Bytes, offset: int, max: U8): (r: Option<Bytes>) {
    match U8At(b, offset)
    case None => None
    case Some(n) => BytesAt(b, offset + 1, if n > max then max else n)
  }

  // ---- Type-length-value elements ----

  datatype Tlv = Tlv(typ: U8, value: Bytes)

  function TlvAt(b: Bytes, offset: int): (r: Option<Tlv>)
    ensures r.Some? ==> offset >= 0 && offset + 3 + |r.value.value| <= |b|
  {
    match (U8At(b, offset), Le16At(b, offset + 1))
    case (Some(typ), Some(n)) =>
      (match BytesAt(b, offset + 3, n)
       case Some(value) => Some(Tlv(typ, value))
       case None => None)
    case _ => None
  }

  function Encode(t: Tlv): (b: Bytes) { [t.typ] + Le(|t.value|, 2) + t.value }

  function Serialize(ts: seq<Tlv>): Bytes { if ts == [] then [] else Encode(ts[0]) + Serialize(ts[1..]) }

  /** What follows an element does not disturb reading it. */
  lemma TlvRoundTrip(t: Tlv, rest: Bytes)
    requires |t.value| < 0x1_0000
    ensures TlvAt(Encode(t) + rest, 0) == Some(t) && (Encode(t) + rest)[3 + |t.value|..] == rest
  {
    var b, n := Encode(t) + rest, |t.value|;
    assert b[1..3] == Le(n, 2);
    assert b[3..3 + n] == t.value;
    Widths();
    LeInverse(n, 2);
  }

  lemma {:induction false} SerializeAppend(xs: seq<Tlv>, ys: seq<Tlv>)
    ensures Serialize(xs + ys) == Serialize(xs) + Serialize(ys)
    decreases |xs|
  {
    hide Encode;
    if xs == [] {
      assert xs + ys == ys;
    } else {
      SerializeAppend(xs[1..], ys);
      assert (xs + ys)[1..] == xs[1..] + ys;
    }
  }

  /** Appending one more element to what has been written. */
  lemma SerializeMore(b: Bytes, ts: seq<Tlv>, t: Tlv)
    ensures b + Serialize(ts) + Encode(t) == b + Serialize(ts + [t])
  {
    hide Encode;
    SerializeAppend(ts, [t]);
    assert Serialize([t]) == Encode(t) + [];
  }

  // ---- Buffers ----

  /** A window on an array. Reading checks bounds; stripping and taking shrink the window from either end. */
  class Buf {
    const data: array<U8>
    var start: nat
    var len: nat

    ghost predicate Valid()
      reads this
    {
      start + len <= data.Length
    }

    ghost function Contents(): (b: Bytes)
      requires Valid()
      reads this, data
      ensures |b| == len
    {
      data[start..start + len]
    }

    constructor (data: array<U8>, start: nat, len: nat)
      requires start + len <= data.Length
      ensures Valid() && this.data == data && Contents() == data[start..start + len]
    {
      this.data := data;
      this.start := start;
      this.len := len;
    }

    method Strip(n: int) returns (ok: bool)
      requires Valid()
      modifies this`start, this`len
      ensures Valid() && (ok <==> 0 <= n <= old(len))
      ensures Contents() == if ok then old(Contents())[n..] else old(Contents())
    {
      if n > len || n < 0 {
        return false;
      }
      start := start + n;
      len := len - n;
      return true;
    }

    method Take(n: int) returns (ok: bool)
      requires Valid()
      modifies this`len
      ensures Valid() && (ok <==> 0 <= n <= old(len))
      ensures Contents() == if ok then old(Contents())[..old(len) - n] else old(Contents())
    {
      if n > len || n < 0 {
        return false;
      }
      len := len - n;
      return true;
    }

    method ReadU8(offset: int) returns (v: Option<U8>)
      requires Valid()
      ensures v == U8At(Contents(), offset)
    {
      if offset < 0 || offset + 1 > len {
        return None;
      }
      return Some(data[start + offset]);
    }

    method ReadLe16(offset: int) returns (v: Option<U16>)
      requires Valid()
      ensures v == Le16At(Contents(), offset)
    {
      if offset < 0 || offset + 2 > len {
        return None;
      }
      FromLe2(Contents()[offset..offset + 2]);
      return Some(data[start + offset] as int + 256 * data[start + offset + 1] as int);
    }

    method ReadLe32(offset: int) returns (v: Option<U32>)
      requires Valid()
      ensures v == Le32At(Contents(), offset)
    {
      if offset < 0 || offset + 4 > len {
        return None;
      }
      var at := start + offset;
      FromLe4(Contents()[offset..offset + 4]);
      return Some(data[at] as int + 0x100 * data[at + 1] as int
                  + 0x1_0000 * data[at + 2] as int + 0x100_0000 * data[at + 3] as int);
    }

    method ReadBytes(offset: int, n: nat) returns (v: Option<Bytes>)
      requires Valid()
      ensures v == BytesAt(Contents(), offset, n)
    {
      if offset < 0 || offset + n > len {
        return None;
      }
      SliceOfSlice(data[..], start, len, offset, n);
      return Some(data[start + offset..start + offset + n]);
    }

    method ReadAddr(offset: int) returns (v: Option<Addr>)
      requires Valid()
      ensures v == AddrAt(Contents(), offset)
    {
      var f := ReadBytes(offset, 6);
      if f.None? {
        return None;
      }
      Widths();
      BeBound(f.value);
      return Some(FromBe(f.value));
    }

    method ReadIntString(offset: int, max: U8) returns (v: Option<Bytes>)
      requires Valid()
      ensures v == IntStringAt(Contents(), offset, max)
    {
      var n := ReadU8(offset);
      if n.None? {
        return None;
      }
      v := ReadBytes(offset + 1, if n.value > max then max else n.value);
    }

    /** The element at an offset, its value being a window on the same array. */
    method ReadTlv(offset: int) returns (v: Option<(U8, Buf)>)
      requires Valid()
      ensures v.None? <==> TlvAt(Contents(), offset).None?
      ensures v.Some? ==> && fresh(v.value.1) && v.value.1.Valid() && v.value.1.data == data
                          && TlvAt(Contents(), offset) == Some(Tlv(v.value.0, v.value.1.Contents()))
    {
      hide U8At, Le16At, FromLe;
      var typ := ReadU8(offset);
      if typ.None? {
        return None;
      }
      var n := ReadLe16(offset + 1);
      if n.None? || offset + 3 + n.value > len {
        return None;
      }
      var at := start + offset + 3;
      ghost var field := data[at..at + n.value];
      SliceOfSlice(data[..], start, len, offset + 3, n.value);
      assert BytesAt(Contents(), offset + 3, n.value) == Some(field);
      var value := new Buf(data, at, n.value);
      assert value.Contents() == field;
      return Some((typ.value, value));
    }

    /** The writers of fields all overwrite bytes in place, or nothing if they do not fit. */
    method WriteBytes(offset: int, bytes: Bytes) returns (ok: bool)
      requires Valid()
      modifies data
      ensures ok <==> BytesAt(old(Contents()), offset, |bytes|).Some?
      ensures Contents() == if ok then Patched(old(Contents()), offset, bytes) else old(Contents())
    {
      if offset < 0 || offset + |bytes| > len {
        return false;
      }
      forall i | 0 <= i < |bytes| {
        data[start + offset + i] := bytes[i];
      }
      return true;
    }
  }

  function Patched(b: Bytes, offset: nat, bytes: Bytes): (r: Bytes)
    requires offset + |bytes| <= |b|
    ensures |r| == |b|
  {
    b[..offset] + bytes + b[offset + |bytes|..]
  }

  lemma PatchedSlices(b: Bytes, offset: nat, bytes: Bytes, other: nat, k: nat)
    requires offset + |bytes| <= |b|
    ensures BytesAt(Patched(b, offset, bytes), offset, |bytes|) == Some(bytes)
    ensures other + k <= offset || offset + |bytes| <= other ==>
              BytesAt(Patched(b, offset, bytes), other, k) == BytesAt(b, other, k)
  {
    var r := Patched(b, offset, bytes);
    assert r[offset..offset + |bytes|] == bytes;
    if other + k <= |b| && (other + k <= offset || offset + |bytes| <= other) {
      assert r[other..other + k] == b[other..other + k];
    }
  }

  /** A number just written, in either byte order, is what is read there, and no field beside it changes. */
  lemma WrittenIsRead(b: Bytes, offset: nat, width: nat, n: nat, other: nat, k: nat)
    requires offset + width <= |b| && n < Pow256(width)
    ensures forall f <- {Le(n, width), Be(n, width)} ::
              && BytesAt(Patched(b, offset, f), offset, width) == Some(f)
              && (other + k <= offset || offset + width <= other ==>
                    BytesAt(Patched(b, offset, f), other, k) == BytesAt(b, other, k))
    ensures FromLe(Le(n, width)) == n && FromBe(Be(n, width)) == n
  {
    LeInverse(n, width);
    BeInverse(n, width);
    forall f <- {Le(n, width), Be(n, width)}
      ensures |f| == width && BytesAt(Patched(b, offset, f), offset, width) == Some(f)
      ensures other + k <= offset || offset + width <= other ==>
                BytesAt(Patched(b, offset, f), other, k) == BytesAt(b, other, k)
    {
      PatchedSlices(b, offset, f, other, k);
    }
  }

  lemma SliceOfSlice(d: Bytes, a: nat, n: nat, o: nat, k: nat)
    requires a + n <= |d| && o + k <= n
    ensures d[a..a + n][o..o + k] == d[a + o..a + o + k]
  {
    var x, y := d[a..a + n][o..o + k], d[a + o..a + o + k];
    assert forall i | 0 <= i < k :: x[i] == d[a + o + i] && y[i] == d[a + o + i];
  }

  lemma FromLe2(f: Bytes)
    requires |f| == 2
    ensures FromLe(f) == f[0] as int + 256 * f[1] as int < 0x1_0000
  {
    assert FromLe(f[1..]) == f[1] as int + 256 * FromLe(f[2..]) by { assert f[1..][1..] == f[2..]; }
  }

  lemma FromLe4(f: Bytes)
    requires |f| == 4
    ensures FromLe(f) ==
            f[0] as int + 0x100 * f[1] as int + 0x1_0000 * f[2] as int + 0x100_0000 * f[3] as int < 0x1_0000_0000
  {
    FromLe2(f[2..]);
    assert f[1..][1..] == f[2..];
    assert FromLe(f[1..]) == f[1] as int + 256 * FromLe(f[2..]);
  }
}
