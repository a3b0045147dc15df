/** Generated serialization code of some records, over the buffer archives. Each
    serializer is shown to append the bytes of its record, and these bytes to be the
    encoding of the record as a wire value, which decoding inverts. */
module Records {
  import opened Prelude
  import opened Codec
  import opened RecordIO

  type Text = Option<seq<byte>>

  datatype ReplyHeader = ReplyHeader(xid: int, zxid: int, err: int)
  datatype SetWatches = SetWatches(
    relativeZxid: int, dataWatches: seq<Text>, existWatches: seq<Text>, childWatches: seq<Text>)
  datatype ACL = ACL(perms: int, scheme: Text, id: Text)
  datatype CreateRequest = CreateRequest(path: Text, data: Text, acl: seq<ACL>, flags: int)

  const ReplyHeaderType := TRecord([TInt, TLong, TInt])
  const StringVectorType := TVector(TString)
  const SetWatchesType := TRecord([TLong, StringVectorType, StringVectorType, StringVectorType])
  const IdType := TRecord([TString, TString])
  const AclType := TRecord([TInt, IdType])
  const AclVectorType := TVector(AclType)
  const CreateRequestType := TRecord([TString, TBuffer, AclVectorType, TInt])

  predicate TextFits(s: Text) {
    s.Some? ==> Fits(s.value)
  }

  // --------------------------------------------------------- what is written

  predicate TextsFit(v: seq<Text>) {
    |v| < TWO31 && forall i | 0 <= i < |v| :: TextFits(v[i])
  }

  function TextsBytes(v: seq<Text>): seq<byte>
    requires TextsFit(v)
  {
    if v == [] then [] else EncBytes(v[0]) + TextsBytes(v[1..])
  }

  function StringVectorBytes(v: seq<Text>): seq<byte>
    requires TextsFit(v)
  {
    Enc32(|v|) + TextsBytes(v)
  }

  predicate AclFits(a: ACL) {
    IsInt32(a.perms) && TextFits(a.scheme) && TextFits(a.id)
  }

  predicate AclsFit(v: seq<ACL>) {
    |v| < TWO31 && forall i | 0 <= i < |v| :: AclFits(v[i])
  }

  function AclBytes(a: ACL): seq<byte>
    requires AclFits(a)
  {
    Enc32(a.perms) + EncBytes(a.scheme) + EncBytes(a.id)
  }

  function AclsBytes(v: seq<ACL>): seq<byte>
    requires AclsFit(v)
  {
    if v == [] then [] else AclBytes(v[0]) + AclsBytes(v[1..])
  }

  function AclVectorBytes(v: seq<ACL>): seq<byte>
    requires AclsFit(v)
  {
    Enc32(|v|) + AclsBytes(v)
  }

  predicate ReplyHeaderFits(h: ReplyHeader) {
    IsInt32(h.xid) && IsInt64(h.zxid) && IsInt32(h.err)
  }

  function ReplyHeaderBytes(h: ReplyHeader): seq<byte>
    requires ReplyHeaderFits(h)
  {
    Enc32(h.xid) + Enc64(h.zxid) + Enc32(h.err)
  }

  predicate SetWatchesFits(w: SetWatches) {
    IsInt64(w.relativeZxid) && TextsFit(w.dataWatches) && TextsFit(w.existWatches) && TextsFit(w.childWatches)
  }

  function SetWatchesBytes(w: SetWatches): seq<byte>
    requires SetWatchesFits(w)
  {
    Enc64(w.relativeZxid) + StringVectorBytes(w.dataWatches) + StringVectorBytes(w.existWatches)
    + StringVectorBytes(w.childWatches)
  }

  predicate CreateRequestFits(r: CreateRequest) {
    TextFits(r.path) && TextFits(r.data) && AclsFit(r.acl) && IsInt32(r.flags)
  }

  function CreateRequestBytes(r: CreateRequest): seq<byte>
    requires CreateRequestFits(r)
  {
    EncBytes(r.path) + EncBytes(r.data) + AclVectorBytes(r.acl) + Enc32(r.flags)
  }

  lemma Assoc4<T>(z: seq<T>, a: seq<T>, b: seq<T>, c: seq<T>, d: seq<T>)
    ensures z + a + b + c + d == z + (a + b + c + d)
  {
  }

  lemma Right4<T>(a: seq<T>, b: seq<T>, c: seq<T>, d: seq<T>)
    ensures a + (b + c + d) == a + b + c + d
  {
  }

  // ------------------------------------------------------------ serializers

  method SerializeReplyHeader(oa: OArchive, h: ReplyHeader)
    requires oa.Valid() && ReplyHeaderFits(h) && oa.off + 16 <= LIMIT
    modifies oa, oa.buffer
    ensures oa.Valid() && (oa.buffer == old(oa.buffer) || fresh(oa.buffer))
    ensures oa.Contents() == old(oa.Contents()) + ReplyHeaderBytes(h)
  {
    ghost var before := oa.Contents();
    oa.SerializeInt(h.xid);
    oa.SerializeLong(h.zxid);
    oa.SerializeInt(h.err);
    Right4(before, Enc32(h.xid), Enc64(h.zxid), Enc32(h.err));
  }

  method SerializeStringVector(oa: OArchive, v: seq<Text>)
    requires oa.Valid() && TextsFit(v) && oa.off + |StringVectorBytes(v)| <= LIMIT
    modifies oa, oa.buffer
    ensures oa.Valid() && (oa.buffer == old(oa.buffer) || fresh(oa.buffer))
    ensures oa.Contents() == old(oa.Contents()) + StringVectorBytes(v)
  {
    ghost var all := oa.Contents() + StringVectorBytes(v);
    Assoc(oa.Contents(), Enc32(|v|), TextsBytes(v));
    oa.SerializeInt(|v|);
    assert v[0..] == v;
    for i := 0 to |v|
      invariant oa.Valid() && (oa.buffer == old(oa.buffer) || fresh(oa.buffer))
      invariant oa.Contents() + TextsBytes(v[i..]) == all
    {
      assert v[i..][0] == v[i] && v[i..][1..] == v[i + 1..];
      Assoc(oa.Contents(), EncBytes(v[i]), TextsBytes(v[i + 1..]));
      oa.SerializeBytes(v[i]);
    }
    assert v[|v|..] == [];
  }

  method SerializeSetWatches(oa: OArchive, w: SetWatches)
    requires oa.Valid() && SetWatchesFits(w) && oa.off + |SetWatchesBytes(w)| <= LIMIT
    modifies oa, oa.buffer
    ensures oa.Valid() && (oa.buffer == old(oa.buffer) || fresh(oa.buffer))
    ensures oa.Contents() == old(oa.Contents()) + SetWatchesBytes(w)
  {
    ghost var before := oa.Contents();
    oa.SerializeLong(w.relativeZxid);
    SerializeStringVector(oa, w.dataWatches);
    SerializeStringVector(oa, w.existWatches);
    SerializeStringVector(oa, w.childWatches);
    Assoc4(before, Enc64(w.relativeZxid), StringVectorBytes(w.dataWatches), StringVectorBytes(w.existWatches),
           StringVectorBytes(w.childWatches));
  }

  method SerializeAcl(oa: OArchive, a: ACL)
    requires oa.Valid() && AclFits(a) && oa.off + |AclBytes(a)| <= LIMIT
    modifies oa, oa.buffer
    ensures oa.Valid() && (oa.buffer == old(oa.buffer) || fresh(oa.buffer))
    ensures oa.Contents() == old(oa.Contents()) + AclBytes(a)
  {
    ghost var before := oa.Contents();
    oa.SerializeInt(a.perms);
    oa.SerializeBytes(a.scheme);
    oa.SerializeBytes(a.id);
    Right4(before, Enc32(a.perms), EncBytes(a.scheme), EncBytes(a.id));
  }

  lemma AclsStep(done: seq<byte>, v: seq<ACL>, i: nat)
    requires i < |v| && AclsFit(v)
    ensures done + AclsBytes(v[i..]) == done + AclBytes(v[i]) + AclsBytes(v[i + 1..])
  {
    assert v[i..][0] == v[i] && v[i..][1..] == v[i + 1..];
    Assoc(done, AclBytes(v[i]), AclsBytes(v[i + 1..]));
  }

  method SerializeNext(oa: OArchive, v: seq<ACL>, i: nat, ghost all: seq<byte>)
    requires oa.Valid() && AclsFit(v) && i < |v| && oa.Contents() + AclsBytes(v[i..]) == all && |all| <= LIMIT
    modifies oa, oa.buffer
    ensures oa.Valid() && (oa.buffer == old(oa.buffer) || fresh(oa.buffer))
    ensures oa.Contents() + AclsBytes(v[i + 1..]) == all
  {
    AclsStep(oa.Contents(), v, i);
    SerializeAcl(oa, v[i]);
  }

  method SerializeAclVector(oa: OArchive, v: seq<ACL>)
    requires oa.Valid() && AclsFit(v) && oa.off + |AclVectorBytes(v)| <= LIMIT
    modifies oa, oa.buffer
    ensures oa.Valid() && (oa.buffer == old(oa.buffer) || fresh(oa.buffer))
    ensures oa.Contents() == old(oa.Contents()) + AclVectorBytes(v)
  {
    ghost var all := oa.Contents() + AclVectorBytes(v);
    Assoc(oa.Contents(), Enc32(|v|), AclsBytes(v));
    oa.SerializeInt(|v|);
    assert v[0..] == v;
    for i := 0 to |v|
      invariant oa.Valid() && (oa.buffer == old(oa.buffer) || fresh(oa.buffer))
      invariant oa.Contents() + AclsBytes(v[i..]) == all
    {
      SerializeNext(oa, v, i, all);
    }
    assert v[|v|..] == [];
  }

  method SerializeCreateRequest(oa: OArchive, r: CreateRequest)
    requires oa.Valid() && CreateRequestFits(r) && oa.off + |CreateRequestBytes(r)| <= LIMIT
    modifies oa, oa.buffer
    ensures oa.Valid() && (oa.buffer == old(oa.buffer) || fresh(oa.buffer))
    ensures oa.Contents() == old(oa.Contents()) + CreateRequestBytes(r)
  {
    ghost var before := oa.Contents();
    oa.SerializeBytes(r.path);
    oa.SerializeBytes(r.data);
    SerializeAclVector(oa, r.acl);
    oa.SerializeInt(r.flags);
    Assoc4(before, EncBytes(r.path), EncBytes(r.data), AclVectorBytes(r.acl), Enc32(r.flags));
  }

  // ------------------------------------------------- records as wire values

  function Strs(v: seq<Text>): (r: seq<Value>)
    ensures |r| == |v|
  {
    if v == [] then [] else [Str(v[0])] + Strs(v[1..])
  }

  function AclValue(a: ACL): Value {
    Rec([Int(a.perms), Rec([Str(a.scheme), Str(a.id)])])
  }

  function AclValues(v: seq<ACL>): (r: seq<Value>)
    ensures |r| == |v|
  {
    if v == [] then [] else [AclValue(v[0])] + AclValues(v[1..])
  }

  function ReplyHeaderValue(h: ReplyHeader): Value {
    Rec([Int(h.xid), Long(h.zxid), Int(h.err)])
  }

  function SetWatchesValue(w: SetWatches): Value {
    Rec([Long(w.relativeZxid), Vec(Strs(w.dataWatches)), Vec(Strs(w.existWatches)), Vec(Strs(w.childWatches))])
  }

  function CreateRequestValue(r: CreateRequest): Value {
    Rec([Str(r.path), Buf(r.data), Vec(AclValues(r.acl)), Int(r.flags)])
  }

  /** Strings that round-trip: not null, without NUL. */
  predicate Plain(s: Text) {
    s.Some? && Fits(s.value) && 0 !in s.value
  }

  predicate AllPlain(v: seq<Text>) {
    |v| < TWO31 && forall i | 0 <= i < |v| :: Plain(v[i])
  }

  predicate AclsPlain(v: seq<ACL>) {
    |v| < TWO31 && forall i | 0 <= i < |v| :: IsInt32(v[i].perms) && Plain(v[i].scheme) && Plain(v[i].id)
  }

  lemma Fields(v: Value, vs: seq<Value>, t: Type, ts: seq<Type>)
    requires HasType(v, t) && HasTypes(vs, ts)
    ensures HasTypes([v] + vs, [t] + ts)
    ensures EncFields([v] + vs, [t] + ts) == Enc(v, t) + EncFields(vs, ts)
  {
    assert ([v] + vs)[1..] == vs && ([t] + ts)[1..] == ts;
  }

  lemma Fields2(a: Value, b: Value, s: Type, t: Type)
    requires HasType(a, s) && HasType(b, t)
    ensures HasTypes([a, b], [s, t]) && EncFields([a, b], [s, t]) == Enc(a, s) + Enc(b, t)
  {
    Fields(b, [], t, []);
    assert [b] + [] == [b] && [t] + [] == [t] && Enc(b, t) + [] == Enc(b, t);
    Fields(a, [b], s, [t]);
    assert [a] + [b] == [a, b] && [s] + [t] == [s, t];
  }

  lemma Fields3(a: Value, b: Value, c: Value, r: Type, s: Type, t: Type)
    requires HasType(a, r) && HasType(b, s) && HasType(c, t)
    ensures HasTypes([a, b, c], [r, s, t])
    ensures EncFields([a, b, c], [r, s, t]) == Enc(a, r) + Enc(b, s) + Enc(c, t)
  {
    Fields2(b, c, s, t);
    Fields(a, [b, c], r, [s, t]);
    assert [a] + [b, c] == [a, b, c] && [r] + [s, t] == [r, s, t];
    Assoc(Enc(a, r), Enc(b, s), Enc(c, t));
  }

  lemma FourParts<T>(a: T, b: T, c: T, d: T)
    ensures [a] + [b, c, d] == [a, b, c, d]
  {
  }

  lemma Fields4(a: Value, b: Value, c: Value, d: Value, q: Type, r: Type, s: Type, t: Type)
    requires HasType(a, q) && HasType(b, r) && HasType(c, s) && HasType(d, t)
    ensures HasTypes([a, b, c, d], [q, r, s, t])
    ensures EncFields([a, b, c, d], [q, r, s, t]) == Enc(a, q) + Enc(b, r) + Enc(c, s) + Enc(d, t)
  {
    Fields3(b, c, d, r, s, t);
    Fields(a, [b, c, d], q, [r, s, t]);
    FourParts(a, b, c, d);
    FourParts(q, r, s, t);
    Right4(Enc(a, q), Enc(b, r), Enc(c, s), Enc(d, t));
  }

  lemma {:induction false} StrsWire(v: seq<Text>)
    requires AllPlain(v)
    ensures HasElemType(Strs(v), TString) && EncElems(Strs(v), TString) == TextsBytes(v)
  {
    if v != [] {
      StrsWire(v[1..]);
      assert Strs(v)[1..] == Strs(v[1..]);
    }
  }

  lemma AclWire(a: ACL)
    requires IsInt32(a.perms) && Plain(a.scheme) && Plain(a.id)
    ensures HasType(AclValue(a), AclType) && Enc(AclValue(a), AclType) == AclBytes(a)
  {
    Fields2(Str(a.scheme), Str(a.id), TString, TString);
    Fields2(Int(a.perms), Rec([Str(a.scheme), Str(a.id)]), TInt, IdType);
    Assoc(Enc32(a.perms), EncBytes(a.scheme), EncBytes(a.id));
  }

  lemma {:induction false} AclsWire(v: seq<ACL>)
    requires AclsPlain(v)
    ensures HasElemType(AclValues(v), AclType) && EncElems(AclValues(v), AclType) == AclsBytes(v)
  {
    if v != [] {
      AclWire(v[0]);
      AclsWire(v[1..]);
      assert AclValues(v)[1..] == AclValues(v[1..]);
    }
  }

  /** The bytes written for a reply header decode to it, at any offset. */
  lemma ReplyHeaderRoundTrip(h: ReplyHeader, buf: seq<byte>, off: nat)
    requires ReplyHeaderFits(h) && Holds(buf, off, ReplyHeaderBytes(h))
    ensures Dec(ReplyHeaderType, buf, off) == Decoded(0, ReplyHeaderValue(h), off + 16)
  {
    Fields3(Int(h.xid), Long(h.zxid), Int(h.err), TInt, TLong, TInt);
    RoundTrip(ReplyHeaderValue(h), ReplyHeaderType, buf, off);
  }

  lemma SetWatchesRoundTrip(w: SetWatches, buf: seq<byte>, off: nat)
    requires IsInt64(w.relativeZxid)
    requires AllPlain(w.dataWatches) && AllPlain(w.existWatches) && AllPlain(w.childWatches)
    requires Holds(buf, off, SetWatchesBytes(w))
    ensures Dec(SetWatchesType, buf, off) == Decoded(0, SetWatchesValue(w), off + |SetWatchesBytes(w)|)
  {
    StrsWire(w.dataWatches);
    StrsWire(w.existWatches);
    StrsWire(w.childWatches);
    Fields4(Long(w.relativeZxid), Vec(Strs(w.dataWatches)), Vec(Strs(w.existWatches)), Vec(Strs(w.childWatches)),
            TLong, StringVectorType, StringVectorType, StringVectorType);
    RoundTrip(SetWatchesValue(w), SetWatchesType, buf, off);
  }

  lemma CreateRequestRoundTrip(r: CreateRequest, buf: seq<byte>, off: nat)
    requires Plain(r.path) && TextFits(r.data) && AclsPlain(r.acl) && IsInt32(r.flags)
    requires Holds(buf, off, CreateRequestBytes(r))
    ensures Dec(CreateRequestType, buf, off) == Decoded(0, CreateRequestValue(r), off + |CreateRequestBytes(r)|)
  {
    AclsWire(r.acl);
    Fields4(Str(r.path), Buf(r.data), Vec(AclValues(r.acl)), Int(r.flags), TString, TBuffer, AclVectorType, TInt);
    RoundTrip(CreateRequestValue(r), CreateRequestType, buf, off);
  }

  // ---------------------------------------------------------- deserializers

  method DeserializeReplyHeader(ia: IArchive) returns (rc: int, h: ReplyHeader)
    requires ia.Valid()
    modifies ia
    ensures ia.Valid() && Decoded(rc, ReplyHeaderValue(h), ia.off) == Dec(ReplyHeaderType, ia.buffer, old(ia.off))
  {
    ghost var off0 := ia.off;
    var xid, zxid, err := 0, 0, 0;
    rc, xid := ia.DeserializeInt();
    if rc == 0 { rc, zxid := ia.DeserializeLong(); }
    if rc == 0 { rc, err := ia.DeserializeInt(); }
    h := ReplyHeader(xid, zxid, err);
    DecFields3(TInt, TLong, TInt, ia.buffer, off0);
  }

  /** Three fields in sequence; after an error the others are left alone. */
  lemma DecFields3(r: Type, s: Type, t: Type, buf: seq<byte>, off: nat)
    requires off <= |buf|
    ensures var a := Dec(r, buf, off);
            var b := if a.rc == 0 then Dec(s, buf, a.off) else Decoded(a.rc, Zero(s), a.off);
            var c := if b.rc == 0 then Dec(t, buf, b.off) else Decoded(b.rc, Zero(t), b.off);
            DecFields([r, s, t], buf, off, 0) == DecodedSeq(c.rc, [a.v, b.v, c.v], c.off)
  {
    var a := Dec(r, buf, off);
    DecFields2(s, t, buf, a.off, a.rc);
    DecFieldsCons(r, [s, t], buf, off, 0);
    assert [r] + [s, t] == [r, s, t];
  }

  lemma DecFieldsCons(t: Type, ts: seq<Type>, buf: seq<byte>, off: nat, rc: int)
    requires off <= |buf|
    ensures var d := if rc == 0 then Dec(t, buf, off) else Decoded(rc, Zero(t), off);
            var r := DecFields(ts, buf, d.off, d.rc);
            DecFields([t] + ts, buf, off, rc) == DecodedSeq(r.rc, [d.v] + r.vs, r.off)
  {
    assert ([t] + ts)[1..] == ts;
  }

  lemma DecFields2(s: Type, t: Type, buf: seq<byte>, off: nat, rc: int)
    requires off <= |buf|
    ensures var b := if rc == 0 then Dec(s, buf, off) else Decoded(rc, Zero(s), off);
            var c := if b.rc == 0 then Dec(t, buf, b.off) else Decoded(b.rc, Zero(t), b.off);
            DecFields([s, t], buf, off, rc) == DecodedSeq(c.rc, [b.v, c.v], c.off)
  {
    var b := if rc == 0 then Dec(s, buf, off) else Decoded(rc, Zero(s), off);
    DecFieldsCons(t, [], buf, b.off, b.rc);
    assert [t] + [] == [t];
    DecFieldsCons(s, [t], buf, off, rc);
    assert [s] + [t] == [s, t];
  }

  /** The loop keeps the first error, and the final assignment drops it. */
  method DeserializeStringVector(ia: IArchive) returns (rc: int, v: seq<Text>)
    requires ia.Valid()
    modifies ia
    ensures ia.Valid() && Decoded(rc, Vec(Strs(v)), ia.off) == Dec(StringVectorType, ia.buffer, old(ia.off))
  {
    v := [];
    var count;
    rc, count := ia.DeserializeInt();
    if rc == 0 {
      ghost var n := if count < 0 then 0 else count;
      ghost var goal := DecElems(TString, n, ia.buffer, ia.off, 0);
      var i := 0;
      while i < count
        invariant ia.Valid() && 0 <= i <= n && |v| == i
        invariant var r := DecElems(TString, n - i, ia.buffer, ia.off, rc);
                  goal == DecodedSeq(r.rc, Strs(v) + r.vs, r.off)
      {
        ghost var d := if rc == 0 then Dec(TString, ia.buffer, ia.off) else Decoded(rc, Zero(TString), ia.off);
        ghost var r := DecElems(TString, n - i - 1, ia.buffer, d.off, d.rc);
        var s: Text := None;
        if rc == 0 { rc, s := ia.DeserializeString(); }
        assert d == Decoded(rc, Str(s), ia.off);
        StrsSnoc(v, s);
        Assoc(Strs(v), [Str(s)], r.vs);
        v := v + [s];
        i := i + 1;
      }
      assert Strs(v) + [] == Strs(v);
    }
    rc := 0;
  }

  lemma {:induction false} StrsSnoc(v: seq<Text>, s: Text)
    ensures Strs(v + [s]) == Strs(v) + [Str(s)]
  {
    if v == [] {
      assert v + [s] == [s] && [s][1..] == [];
    } else {
      assert (v + [s])[1..] == v[1..] + [s];
      StrsSnoc(v[1..], s);
    }
  }

  // -------------------------------------------------- where each field is found

  /** The header on the wire: xid, then zxid, then the error code. */
  lemma ReplyHeaderLayout(h: ReplyHeader)
    requires ReplyHeaderFits(h)
    ensures var b := ReplyHeaderBytes(h);
            |b| == 16 && Dec32(b, 0) == h.xid && Dec64(b, 4) == h.zxid && Dec32(b, 12) == h.err
  {
    var b := ReplyHeaderBytes(h);
    assert b[0..4] == Enc32(h.xid) && b[4..12] == Enc64(h.zxid) && b[12..16] == Enc32(h.err);
    Int32At(b, 0, h.xid);
    Int64At(b, 4, h.zxid);
    Int32At(b, 12, h.err);
  }

  /** The same read by the generated code: whatever bytes there are, the header has its
      numbers from these places. */
  lemma ReplyHeaderRead(h: ReplyHeader, buf: seq<byte>, off: nat, end: nat)
    requires off <= |buf| && Dec(ReplyHeaderType, buf, off) == Decoded(0, ReplyHeaderValue(h), end)
    ensures end == off + 16 <= |buf|
    ensures h.xid == Dec32(buf, off) && h.zxid == Dec64(buf, off + 4) && h.err == Dec32(buf, off + 12)
  {
    DecFields3(TInt, TLong, TInt, buf, off);
  }

  /** Reading type t at off gives v and ends at end. */
  predicate Reads(buf: seq<byte>, off: nat, t: Type, v: Value, end: nat) {
    off <= |buf| && Dec(t, buf, off) == Decoded(0, v, end)
  }

  lemma TextsRead(v: seq<Text>, buf: seq<byte>, off: nat)
    requires AllPlain(v) && Holds(buf, off, StringVectorBytes(v))
    ensures Reads(buf, off, StringVectorType, Vec(Strs(v)), off + |StringVectorBytes(v)|)
  {
    StrsWire(v);
    RoundTrip(Vec(Strs(v)), StringVectorType, buf, off);
  }

  lemma FourAt(a: seq<byte>, b: seq<byte>, c: seq<byte>, d: seq<byte>)
    ensures var s := a + b + c + d;
            Holds(s, 0, a) && Holds(s, |a|, b) && Holds(s, |a| + |b|, c) && Holds(s, |a| + |b| + |c|, d)
  {
  }

  /** The record that sets watches again, on the wire: the zxid, then the paths of data,
      exist and child watches in this order. */
  lemma SetWatchesLayout(w: SetWatches) returns (data: nat, exist: nat)
    requires IsInt64(w.relativeZxid)
    requires AllPlain(w.dataWatches) && AllPlain(w.existWatches) && AllPlain(w.childWatches)
    ensures var b := SetWatchesBytes(w);
            && Reads(b, 0, TLong, Long(w.relativeZxid), 8)
            && Reads(b, 8, StringVectorType, Vec(Strs(w.dataWatches)), data)
            && Reads(b, data, StringVectorType, Vec(Strs(w.existWatches)), exist)
            && Reads(b, exist, StringVectorType, Vec(Strs(w.childWatches)), |b|)
  {
    var b := SetWatchesBytes(w);
    var x, y := StringVectorBytes(w.dataWatches), StringVectorBytes(w.existWatches);
    data, exist := 8 + |x|, 8 + |x| + |y|;
    FourAt(Enc64(w.relativeZxid), x, y, StringVectorBytes(w.childWatches));
    Int64At(b, 0, w.relativeZxid);
    TextsRead(w.dataWatches, b, 8);
    TextsRead(w.existWatches, b, data);
    TextsRead(w.childWatches, b, exist);
  }

  lemma ValueRead(v: Value, t: Type, buf: seq<byte>, off: nat)
    requires HasType(v, t) && Holds(buf, off, Enc(v, t))
    ensures Reads(buf, off, t, v, off + |Enc(v, t)|)
  {
    RoundTrip(v, t, buf, off);
  }

  lemma AclsRead(v: seq<ACL>, buf: seq<byte>, off: nat)
    requires AclsPlain(v) && Holds(buf, off, AclVectorBytes(v))
    ensures Reads(buf, off, AclVectorType, Vec(AclValues(v)), off + |AclVectorBytes(v)|)
  {
    AclsWire(v);
    ValueRead(Vec(AclValues(v)), AclVectorType, buf, off);
  }

  /** The request to create a node: path, data, ACLs and flags in this order. */
  lemma CreateRequestLayout(r: CreateRequest) returns (path: nat, data: nat, acl: nat)
    requires Plain(r.path) && TextFits(r.data) && AclsPlain(r.acl) && IsInt32(r.flags)
    ensures var b := CreateRequestBytes(r);
            && Reads(b, 0, TString, Str(r.path), path) && Reads(b, path, TBuffer, Buf(r.data), data)
            && Reads(b, data, AclVectorType, Vec(AclValues(r.acl)), acl) && Reads(b, acl, TInt, Int(r.flags), |b|)
  {
    var b := CreateRequestBytes(r);
    var p, x, a := EncBytes(r.path), EncBytes(r.data), AclVectorBytes(r.acl);
    path, data, acl := |p|, |p| + |x|, |p| + |x| + |a|;
    FourAt(p, x, a, Enc32(r.flags));
    TextsFirst(r, b, path, data);
    AclsRead(r.acl, b, data);
    Int32At(b, acl, r.flags);
  }

  lemma TextsFirst(r: CreateRequest, b: seq<byte>, path: nat, data: nat)
    requires Plain(r.path) && TextFits(r.data)
    requires Holds(b, 0, EncBytes(r.path)) && Holds(b, path, EncBytes(r.data))
    requires path == |EncBytes(r.path)| && data == path + |EncBytes(r.data)|
    ensures Reads(b, 0, TString, Str(r.path), path) && Reads(b, path, TBuffer, Buf(r.data), data)
  {
    ValueRead(Str(r.path), TString, b, 0);
    ValueRead(Buf(r.data), TBuffer, b, path);
  }

  /** An entry of an access control list: permissions, scheme and id in this order. */
  lemma AclLayout(a: ACL) returns (scheme: nat)
    requires IsInt32(a.perms) && Plain(a.scheme) && Plain(a.id)
    ensures var b := AclBytes(a);
            && Reads(b, 0, TInt, Int(a.perms), 4) && Reads(b, 4, TString, Str(a.scheme), scheme)
            && Reads(b, scheme, TString, Str(a.id), |b|)
  {
    var b := AclBytes(a);
    scheme := 4 + |EncBytes(a.scheme)|;
    FourAt(Enc32(a.perms), EncBytes(a.scheme), EncBytes(a.id), []);
    assert b + [] == b;
    ValueRead(Int(a.perms), TInt, b, 0);
    ValueRead(Str(a.scheme), TString, b, 4);
    ValueRead(Str(a.id), TString, b, scheme);
  }
}
