/** The jute wire format as written and read by the C client's archives: big-endian
    integers, length-prefixed strings and buffers, counted vectors, and records as the
    concatenation of their fields. */
module Codec {
  import opened Prelude

  type byte = b: int | 0 <= b < 256

  const TWO31 := 0x8000_0000
  const TWO32 := 0x1_0000_0000
  const TWO63 := 0x8000_0000_0000_0000
  const TWO64 := 0x1_0000_0000_0000_0000

  const E2BIG := -7
  const EINVAL := -22
  const ENOMEM := -12

  predicate IsInt32(v: int) { -TWO31 <= v < TWO31 }
  predicate IsInt64(v: int) { -TWO63 <= v < TWO63 }

  // -------------------------------------------------------------- integers

  /** An unsigned 32-bit word, most significant byte first. */
  function Word(u: int): (r: seq<byte>)
    requires 0 <= u < TWO32
    ensures |r| == 4
  {
    [u / 0x100_0000, u / 0x1_0000 % 256, u / 0x100 % 256, u % 256]
  }

  function UnWord(b: seq<byte>, off: nat): (u: int)
    requires off + 4 <= |b|
    ensures 0 <= u < TWO32
  {
    b[off] as int * 0x100_0000 + b[off + 1] as int * 0x1_0000 + b[off + 2] as int * 0x100 + b[off + 3] as int
  }

  /** Two's complement. */
  function Enc32(v: int): (r: seq<byte>)
    requires IsInt32(v)
    ensures |r| == 4
  {
    Word(if v < 0 then v + TWO32 else v)
  }

  function Dec32(b: seq<byte>, off: nat): (v: int)
    requires off + 4 <= |b|
    ensures IsInt32(v)
  {
    var u := UnWord(b, off);
    if u >= TWO31 then u - TWO32 else u
  }

  function Enc64(v: int): (r: seq<byte>)
    requires IsInt64(v)
    ensures |r| == 8
  {
    var u := if v < 0 then v + TWO64 else v;
    Word(u / TWO32) + Word(u % TWO32)
  }

  function Dec64(b: seq<byte>, off: nat): (v: int)
    requires off + 8 <= |b|
    ensures IsInt64(v)
  {
    var u := UnWord(b, off) * TWO32 + UnWord(b, off + 4);
    if u >= TWO63 then u - TWO64 else u
  }

  lemma ByteSplit(u: nat)
    ensures u == u / 256 * 256 + u % 256
  {
  }

  lemma HighBytes(u: nat)
    ensures u / 0x1_0000 == u / 256 / 256
    ensures u / 0x100_0000 == u / 0x1_0000 / 256
  {
  }

  lemma WordBytes(u: int)
    requires 0 <= u < TWO32
    ensures UnWord(Word(u), 0) == u
  {
    var a, b := u / 256, u / 0x1_0000;
    HighBytes(u);
    ByteSplit(u);
    ByteSplit(a);
    ByteSplit(b);
    WordSum(u / 0x100_0000, b % 256, a % 256, u % 256);
  }

  lemma WordSum(w: int, x: int, y: int, z: int)
    ensures ((w * 256 + x) * 256 + y) * 256 + z == w * 0x100_0000 + x * 0x1_0000 + y * 0x100 + z
  {
  }

  // ------------------------------------------- the order of the bytes on the wire

  /** A byte that joins a number at its low end joins the word at its end. With the word
      of 0 this fixes the word of every number. */
  lemma WordAppendsByte(u: int, c: byte)
    requires 0 <= u < 0x100_0000
    ensures Word(0) == [0, 0, 0, 0]
    ensures Word(u * 256 + c) == Word(u)[1..] + [c]
  {
    var v := u * 256 + c as int;
    ByteBelow(u, c as int);
    HighBytes(v);
    HighBytes(u);
    assert u / 0x100_0000 == 0;
  }

  lemma ByteBelow(u: nat, c: nat)
    requires c < 256
    ensures (u * 256 + c) / 256 == u && (u * 256 + c) % 256 == c
  {
  }

  /** The same for the eight bytes of a long. */
  lemma LongAppendsByte(u: int, c: byte)
    requires 0 <= u < 0x80_0000_0000_0000
    ensures Enc64(0) == [0, 0, 0, 0, 0, 0, 0, 0]
    ensures Enc64(u * 256 + c) == Enc64(u)[1..] + [c]
  {
    var hi, lo := u / TWO32, u % TWO32;
    var top, low := lo / 0x100_0000, lo % 0x100_0000;
    LongShift(u, c as int, hi, lo, top, low);
    WordAppendsByte(hi, top);
    WordAppendsByte(low, c);
    WordDropsTop(top, low);
    assert Enc64(u) == Word(hi) + Word(lo);
    assert Enc64(u * 256 + c) == Word(hi * 256 + top) + Word(low * 256 + c as int);
  }

  lemma LongShift(u: int, c: int, hi: int, lo: int, top: int, low: int)
    requires 0 <= u < 0x80_0000_0000_0000 && 0 <= c < 256
    requires hi == u / TWO32 && lo == u % TWO32 && top == lo / 0x100_0000 && low == lo % 0x100_0000
    ensures 0 <= hi < 0x80_0000 && 0 <= top < 256 && 0 <= low < 0x100_0000 && lo == top * 0x100_0000 + low
    ensures (u * 256 + c) / TWO32 == hi * 256 + top && (u * 256 + c) % TWO32 == low * 256 + c
  {
    assert u == hi * TWO32 + lo && lo == top * 0x100_0000 + low;
    assert u * 256 + c == (hi * 256 + top) * TWO32 + (low * 256 + c);
  }

  lemma WordDropsTop(top: int, low: int)
    requires 0 <= top < 256 && 0 <= low < 0x100_0000
    ensures var w := Word(top * 0x100_0000 + low); w[0] == top && w[1..] == Word(low)[1..]
  {
    var a: int := low / 0x1_0000;
    WordFromBytes(top, a, low / 0x100 % 256, low % 256);
    WordFromBytes(0, a, low / 0x100 % 256, low % 256);
    HighBytes(low);
    ByteSplit(low);
    ByteSplit(low / 256);
  }

  /** The bytes of a word are the digits of its number to the base 256. */
  lemma WordFromBytes(a: byte, b: byte, c: byte, d: byte)
    ensures var u := a * 0x100_0000 + b * 0x1_0000 + c * 0x100 + d; 0 <= u < TWO32 && Word(u) == [a, b, c, d]
  {
    var u := a as int * 0x100_0000 + b as int * 0x1_0000 + c as int * 0x100 + d as int;
    ByteBelow(a as int * 0x1_0000 + b as int * 0x100 + c as int, d as int);
    ByteBelow(a as int * 0x100 + b as int, c as int);
    ByteBelow(a as int, b as int);
    HighBytes(u);
  }

  predicate Complements(a: seq<byte>, b: seq<byte>) {
    |a| == |b| && forall i | 0 <= i < |a| :: a[i] == 255 - b[i]
  }

  lemma WordComplement(c: int, u: int)
    requires 0 <= u < TWO32 && c + u == TWO32 - 1
    ensures Complements(Word(c), Word(u))
  {
    var w := Word(u);
    WordBytes(u);
    WordFromBytes(255 - w[0], 255 - w[1], 255 - w[2], 255 - w[3]);
  }

  /** A negative number has the complements of the bytes of the number that it mirrors. */
  lemma NegativeIsComplement(v: int)
    requires -TWO31 <= v < 0
    ensures Complements(Enc32(v), Enc32(-1 - v))
  {
    WordComplement(v + TWO32, -1 - v);
  }

  lemma LongMirror(u: int)
    requires 0 <= u < TWO64
    ensures (TWO64 - 1 - u) / TWO32 == TWO32 - 1 - u / TWO32 && (TWO64 - 1 - u) % TWO32 == TWO32 - 1 - u % TWO32
  {
  }

  lemma ComplementsConcat(a: seq<byte>, b: seq<byte>, c: seq<byte>, d: seq<byte>)
    requires Complements(a, b) && Complements(c, d)
    ensures Complements(a + c, b + d)
  {
  }

  lemma NegativeLongIsComplement(v: int)
    requires -TWO63 <= v < 0
    ensures Complements(Enc64(v), Enc64(-1 - v))
  {
    var u, n := -1 - v, v + TWO64;
    LongMirror(u);
    WordComplement(n / TWO32, u / TWO32);
    WordComplement(n % TWO32, u % TWO32);
    ComplementsConcat(Word(n / TWO32), Word(u / TWO32), Word(n % TWO32), Word(u % TWO32));
  }

  /** The archive holds the bytes s at offset off. */
  ghost predicate Holds(buf: seq<byte>, off: nat, s: seq<byte>) {
    off + |s| <= |buf| && buf[off..off + |s|] == s
  }

  lemma HoldsParts(buf: seq<byte>, off: nat, a: seq<byte>, b: seq<byte>)
    requires Holds(buf, off, a + b)
    ensures Holds(buf, off, a) && Holds(buf, off + |a|, b)
  {
    var s := buf[off..off + |a + b|];
    assert s[..|a|] == a && s[|a|..] == b;
    assert buf[off..off + |a|] == s[..|a|];
    assert buf[off + |a|..off + |a| + |b|] == s[|a|..];
  }

  lemma WordAt(buf: seq<byte>, off: nat, u: int)
    requires 0 <= u < TWO32 && Holds(buf, off, Word(u))
    ensures UnWord(buf, off) == u
  {
    var w := Word(u);
    var s := buf[off..off + 4];
    assert s[0] == buf[off] && s[1] == buf[off + 1] && s[2] == buf[off + 2] && s[3] == buf[off + 3];
    assert s == w;
    WordBytes(u);
  }

  lemma Int32At(buf: seq<byte>, off: nat, v: int)
    requires IsInt32(v) && Holds(buf, off, Enc32(v))
    ensures Dec32(buf, off) == v
  {
    WordAt(buf, off, if v < 0 then v + TWO32 else v);
  }

  lemma Int64At(buf: seq<byte>, off: nat, v: int)
    requires IsInt64(v) && Holds(buf, off, Enc64(v))
    ensures Dec64(buf, off) == v
  {
    var u := if v < 0 then v + TWO64 else v;
    HoldsParts(buf, off, Word(u / TWO32), Word(u % TWO32));
    WordAt(buf, off, u / TWO32);
    WordAt(buf, off + 4, u % TWO32);
  }

  // ---------------------------------------------------------------- records

  datatype Type =
    | TInt | TLong | TBool | TString | TBuffer
    | TVector(elem: Type)
    | TRecord(fields: seq<Type>)

  /** A string or buffer may be the null pointer. */
  datatype Value =
    | Int(i: int)
    | Long(l: int)
    | Bool(b: int)
    | Str(s: Option<seq<byte>>)
    | Buf(buff: Option<seq<byte>>)
    | Vec(elems: seq<Value>)
    | Rec(vals: seq<Value>)

  predicate Fits(s: seq<byte>) {
    |s| < TWO31
  }

  /** The values that the format can carry: in range, booleans 0 or 1, strings not
      null and without NUL. */
  predicate HasType(v: Value, t: Type)
    decreases v, 1
  {
    match (v, t)
    case (Int(i), TInt) => IsInt32(i)
    case (Long(l), TLong) => IsInt64(l)
    case (Bool(b), TBool) => b == 0 || b == 1
    case (Str(s), TString) => s.Some? && Fits(s.value) && 0 !in s.value
    case (Buf(s), TBuffer) => s.Some? ==> Fits(s.value)
    case (Vec(vs), TVector(e)) => |vs| < TWO31 && HasElemType(vs, e)
    case (Rec(vs), TRecord(ts)) => HasTypes(vs, ts)
    case _ => false
  }

  predicate HasElemType(vs: seq<Value>, t: Type)
    decreases vs, 0
  {
    vs == [] || (HasType(vs[0], t) && HasElemType(vs[1..], t))
  }

  predicate HasTypes(vs: seq<Value>, ts: seq<Type>)
    decreases vs, 0
  {
    if vs == [] || ts == [] then vs == [] && ts == []
    else HasType(vs[0], ts[0]) && HasTypes(vs[1..], ts[1..])
  }

  function EncBytes(s: Option<seq<byte>>): seq<byte>
    requires s.Some? ==> Fits(s.value)
  {
    if s.None? then Enc32(-1) else Enc32(|s.value|) + s.value
  }

  function Enc(v: Value, t: Type): seq<byte>
    requires HasType(v, t)
    decreases v, 1
  {
    match v
    case Int(i) => Enc32(i)
    case Long(l) => Enc64(l)
    case Bool(b) => [if b == 0 then 0 else 1]
    case Str(s) => EncBytes(s)
    case Buf(s) => EncBytes(s)
    case Vec(vs) => Enc32(|vs|) + EncElems(vs, t.elem)
    case Rec(vs) => EncFields(vs, t.fields)
  }

  function EncElems(vs: seq<Value>, t: Type): seq<byte>
    requires HasElemType(vs, t)
    decreases vs, 0
  {
    if vs == [] then [] else Enc(vs[0], t) + EncElems(vs[1..], t)
  }

  function EncFields(vs: seq<Value>, ts: seq<Type>): seq<byte>
    requires HasTypes(vs, ts)
    decreases vs, 0
  {
    if vs == [] then [] else Enc(vs[0], ts[0]) + EncFields(vs[1..], ts[1..])
  }

  // ---------------------------------------------------------------- reading

  /** Return code, value, and the offset afterwards; on an error the offset may have
      moved past a length that was read. */
  datatype Decoded = Decoded(rc: int, v: Value, off: nat)
  datatype DecodedSeq = DecodedSeq(rc: int, vs: seq<Value>, off: nat)

  function UptoNul(s: seq<byte>): seq<byte> {
    if s == [] || s[0] == 0 then [] else [s[0]] + UptoNul(s[1..])
  }

  /** What zeroed memory holds. */
  function Zero(t: Type): Value
    decreases t, 1
  {
    match t
    case TInt => Int(0)
    case TLong => Long(0)
    case TBool => Bool(0)
    case TString => Str(None)
    case TBuffer => Buf(None)
    case TVector(_) => Vec([])
    case TRecord(fs) => Rec(Zeros(fs))
  }

  function Zeros(ts: seq<Type>): seq<Value>
    decreases ts, 0
  {
    if ts == [] then [] else [Zero(ts[0])] + Zeros(ts[1..])
  }

  function DecString(buf: seq<byte>, off: nat): (r: Decoded)
    requires off <= |buf|
    ensures off <= r.off <= |buf|
  {
    if |buf| - off < 4 then Decoded(E2BIG, Str(None), off)
    else
      var len := Dec32(buf, off);
      if |buf| - (off + 4) < len then Decoded(E2BIG, Str(None), off + 4)
      else if len < 0 then Decoded(EINVAL, Str(None), off + 4)
      else Decoded(0, Str(Some(UptoNul(buf[off + 4..off + 4 + len]))), off + 4 + len)
  }

  function DecBuffer(buf: seq<byte>, off: nat): (r: Decoded)
    requires off <= |buf|
    ensures off <= r.off <= |buf|
  {
    if |buf| - off < 4 then Decoded(E2BIG, Buf(None), off)
    else
      var len := Dec32(buf, off);
      if |buf| - (off + 4) < len then Decoded(E2BIG, Buf(None), off + 4)
      else if len == -1 then Decoded(0, Buf(None), off + 4)
      else if len < 0 then Decoded(ENOMEM, Buf(None), off + 4)
      else Decoded(0, Buf(Some(buf[off + 4..off + 4 + len])), off + 4 + len)
  }

  function Dec(t: Type, buf: seq<byte>, off: nat): (r: Decoded)
    requires off <= |buf|
    ensures off <= r.off <= |buf|
    decreases t, 1
  {
    match t
    case TInt =>
      if |buf| - off < 4 then Decoded(E2BIG, Zero(t), off) else Decoded(0, Int(Dec32(buf, off)), off + 4)
    case TLong =>
      if |buf| - off < 8 then Decoded(E2BIG, Zero(t), off) else Decoded(0, Long(Dec64(buf, off)), off + 8)
    case TBool =>
      if |buf| - off < 1 then Decoded(E2BIG, Zero(t), off)
      else Decoded(0, Bool(if buf[off] < 128 then buf[off] as int else buf[off] as int - 256), off + 1)
    case TString => DecString(buf, off)
    case TBuffer => DecBuffer(buf, off)
    case TVector(e) =>
      // the code of the count and of the elements is overwritten by that of end_vector
      if |buf| - off < 4 then Decoded(0, Vec([]), off)
      else
        var n := Dec32(buf, off);
        var r := DecElems(e, if n < 0 then 0 else n, buf, off + 4, 0);
        Decoded(0, Vec(r.vs), r.off)
    case TRecord(fs) =>
      var r := DecFields(fs, buf, off, 0);
      Decoded(r.rc, Rec(r.vs), r.off)
  }

  /** The loop over the elements: after an error the rest stays zeroed. */
  function DecElems(t: Type, n: nat, buf: seq<byte>, off: nat, rc: int): (r: DecodedSeq)
    requires off <= |buf|
    ensures off <= r.off <= |buf| && |r.vs| == n
    decreases t, 2, n
  {
    if n == 0 then DecodedSeq(rc, [], off)
    else
      var d := if rc == 0 then Dec(t, buf, off) else Decoded(rc, Zero(t), off);
      var r := DecElems(t, n - 1, buf, d.off, d.rc);
      DecodedSeq(r.rc, [d.v] + r.vs, r.off)
  }

  function DecFields(ts: seq<Type>, buf: seq<byte>, off: nat, rc: int): (r: DecodedSeq)
    requires off <= |buf|
    ensures off <= r.off <= |buf| && |r.vs| == |ts|
    decreases ts, 0
  {
    if ts == [] then DecodedSeq(rc, [], off)
    else
      var d := if rc == 0 then Dec(ts[0], buf, off) else Decoded(rc, Zero(ts[0]), off);
      var r := DecFields(ts[1..], buf, d.off, d.rc);
      DecodedSeq(r.rc, [d.v] + r.vs, r.off)
  }

  /** The errors of reading a string or a buffer: -7 for a length or bytes that are not all
      there; else -22 for a string of negative length and -12 for a buffer of a negative
      length other than -1. The offset stays before a length that is not all there and
      moves behind one that is. */
  lemma ReadErrors(buf: seq<byte>, off: nat)
    requires off <= |buf|
    ensures var (s, b) := (DecString(buf, off), DecBuffer(buf, off));
            if off + 4 > |buf| then s.rc == b.rc == -7 && s.off == b.off == off
            else if off + 4 + Dec32(buf, off) > |buf| then s.rc == b.rc == -7 && s.off == b.off == off + 4
            else if Dec32(buf, off) < 0 then
              s.rc == -22 && s.off == b.off == off + 4 && b.rc == (if Dec32(buf, off) == -1 then 0 else -12)
            else s.rc == b.rc == 0 && s.off == b.off == off + 4 + Dec32(buf, off)
  {
  }

  /** A number that is not all there gives the error -7, leaves the zeroed value and the
      offset. */
  lemma ShortNumbers(buf: seq<byte>, off: nat)
    requires off <= |buf|
    ensures off + 4 > |buf| <==> Dec(TInt, buf, off) == Decoded(-7, Int(0), off)
    ensures off + 8 > |buf| <==> Dec(TLong, buf, off) == Decoded(-7, Long(0), off)
    ensures off + 1 > |buf| <==> Dec(TBool, buf, off) == Decoded(-7, Bool(0), off)
  {
  }

  /** What a C string keeps of its bytes: those before the first NUL. */
  lemma {:induction false} UptoNulIs(s: seq<byte>)
    ensures var r := UptoNul(s); r <= s && 0 !in r && (|r| < |s| ==> s[|r|] == 0)
  {
    if s != [] && s[0] != 0 {
      UptoNulIs(s[1..]);
      assert s == [s[0]] + s[1..];
    }
  }

  // ------------------------------------------------------------- round trip

  lemma {:induction false} UptoNulWhole(s: seq<byte>)
    requires 0 !in s
    ensures UptoNul(s) == s
  {
    if s != [] { UptoNulWhole(s[1..]); }
  }

  lemma BytesAt(buf: seq<byte>, off: nat, s: seq<byte>)
    requires Fits(s) && Holds(buf, off, EncBytes(Some(s)))
    ensures off + 4 + |s| <= |buf| && Dec32(buf, off) == |s| && buf[off + 4..off + 4 + |s|] == s
  {
    HoldsParts(buf, off, Enc32(|s|), s);
    Int32At(buf, off, |s|);
  }

  /** Decoding the encoding of a value, at any offset of any buffer, gives back the
      value and consumes exactly its bytes. */
  lemma {:induction false} RoundTrip(v: Value, t: Type, buf: seq<byte>, off: nat)
    requires HasType(v, t) && Holds(buf, off, Enc(v, t))
    ensures Dec(t, buf, off) == Decoded(0, v, off + |Enc(v, t)|)
    decreases v, 1
  {
    match v
    case Int(i) => Int32At(buf, off, i);
    case Long(l) => Int64At(buf, off, l);
    case Bool(b) => assert buf[off] == buf[off..off + 1][0];
    case Str(s) => BytesAt(buf, off, s.value); UptoNulWhole(s.value);
    case Buf(s) => if s.None? { Int32At(buf, off, -1); } else { BytesAt(buf, off, s.value); }
    case Vec(vs) => VecRoundTrip(vs, t.elem, buf, off);
    case Rec(vs) => FieldsRoundTrip(vs, t.fields, buf, off);
  }

  lemma {:induction false} VecRoundTrip(vs: seq<Value>, t: Type, buf: seq<byte>, off: nat)
    requires |vs| < TWO31 && HasElemType(vs, t) && Holds(buf, off, Enc32(|vs|) + EncElems(vs, t))
    ensures Dec(TVector(t), buf, off) == Decoded(0, Vec(vs), off + 4 + |EncElems(vs, t)|)
    decreases vs, 1
  {
    HoldsParts(buf, off, Enc32(|vs|), EncElems(vs, t));
    Int32At(buf, off, |vs|);
    ElemsRoundTrip(vs, t, buf, off + 4);
  }

  lemma {:induction false} ElemsRoundTrip(vs: seq<Value>, t: Type, buf: seq<byte>, off: nat)
    requires HasElemType(vs, t) && Holds(buf, off, EncElems(vs, t))
    ensures DecElems(t, |vs|, buf, off, 0) == DecodedSeq(0, vs, off + |EncElems(vs, t)|)
    decreases vs, 0
  {
    if vs != [] {
      var mid := off + |Enc(vs[0], t)|;
      var end := mid + |EncElems(vs[1..], t)|;
      FirstElem(vs, t, buf, off);
      RoundTrip(vs[0], t, buf, off);
      ElemsRoundTrip(vs[1..], t, buf, mid);
      DecElemsStep(vs, t, buf, off, mid, end);
    }
  }

  lemma FirstElem(vs: seq<Value>, t: Type, buf: seq<byte>, off: nat)
    requires HasElemType(vs, t) && vs != [] && Holds(buf, off, EncElems(vs, t))
    ensures HasType(vs[0], t) && HasElemType(vs[1..], t)
    ensures Holds(buf, off, Enc(vs[0], t)) && Holds(buf, off + |Enc(vs[0], t)|, EncElems(vs[1..], t))
    ensures |EncElems(vs, t)| == |Enc(vs[0], t)| + |EncElems(vs[1..], t)|
  {
    HoldsParts(buf, off, Enc(vs[0], t), EncElems(vs[1..], t));
  }

  lemma DecElemsStep(vs: seq<Value>, t: Type, buf: seq<byte>, off: nat, mid: nat, end: nat)
    requires vs != [] && off <= mid <= |buf| && Dec(t, buf, off) == Decoded(0, vs[0], mid)
    requires DecElems(t, |vs[1..]|, buf, mid, 0) == DecodedSeq(0, vs[1..], end)
    ensures DecElems(t, |vs|, buf, off, 0) == DecodedSeq(0, vs, end)
  {
    assert |vs[1..]| == |vs| - 1;
    assert [vs[0]] + vs[1..] == vs;
  }

  lemma {:induction false} FieldsRoundTrip(vs: seq<Value>, ts: seq<Type>, buf: seq<byte>, off: nat)
    requires HasTypes(vs, ts) && Holds(buf, off, EncFields(vs, ts))
    ensures DecFields(ts, buf, off, 0) == DecodedSeq(0, vs, off + |EncFields(vs, ts)|)
    decreases vs, 0
  {
    if vs != [] {
      HoldsParts(buf, off, Enc(vs[0], ts[0]), EncFields(vs[1..], ts[1..]));
      RoundTrip(vs[0], ts[0], buf, off);
      FieldsRoundTrip(vs[1..], ts[1..], buf, off + |Enc(vs[0], ts[0])|);
    }
  }

  /** A message is a header followed by a body: decoding the one after the other gives
      both back and uses up the message. */
  lemma MessageRoundTrip(h: Value, ht: Type, body: Value, bt: Type)
    requires HasType(h, ht) && HasType(body, bt)
    ensures var m := Enc(h, ht) + Enc(body, bt);
            var d := Dec(ht, m, 0);
            d.rc == 0 && d.v == h && Dec(bt, m, d.off) == Decoded(0, body, |m|)
  {
    var m := Enc(h, ht) + Enc(body, bt);
    assert m[0..0 + |m|] == m;
    HoldsParts(m, 0, Enc(h, ht), Enc(body, bt));
    RoundTrip(h, ht, m, 0);
    RoundTrip(body, bt, m, |Enc(h, ht)|);
  }

  /** No encoding is a prefix of another one of the same type. */
  lemma EncodingIsPrefixFree(v: Value, w: Value, t: Type, x: seq<byte>, y: seq<byte>)
    requires HasType(v, t) && HasType(w, t) && Enc(v, t) + x == Enc(w, t) + y
    ensures v == w && x == y
  {
    var m := Enc(v, t) + x;
    assert m[0..|Enc(v, t)|] == Enc(v, t);
    assert m[0..|Enc(w, t)|] == Enc(w, t);
    RoundTrip(v, t, m, 0);
    RoundTrip(w, t, m, 0);
    assert x == m[|Enc(v, t)|..] && y == m[|Enc(w, t)|..];
  }
}
