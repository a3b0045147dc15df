/** When a vector that was read is the one on the wire. Reading reports success in any
    case, so the answer is in the bytes alone. */
module WireVectors {
  import opened Prelude
  import opened Codec
  import opened Records

  /** The bytes of buf from off to end stand for value v: numbers by their bytes, a string
      by a length and bytes of which those before the first NUL count, a record by its
      fields and a vector by its count and its elements, one after the other. */
  ghost predicate Carries(buf: seq<byte>, off: nat, end: nat, v: Value, t: Type)
    decreases t, 1
  {
    off <= end <= |buf| &&
    match t
    case TInt => end == off + 4 && v == Int(Dec32(buf, off))
    case TLong => end == off + 8 && v == Long(Dec64(buf, off))
    case TBool => end == off + 1 && v == Bool(if buf[off] < 128 then buf[off] as int else buf[off] as int - 256)
    case TString =>
      off + 4 <= end && Dec32(buf, off) == end - off - 4 && v == Str(Some(UptoNul(buf[off + 4..end])))
    case TBuffer =>
      off + 4 <= end &&
      ((Dec32(buf, off) == -1 && end == off + 4 && v == Buf(None)) ||
       (Dec32(buf, off) == end - off - 4 && v == Buf(Some(buf[off + 4..end]))))
    case TVector(e) =>
      off + 4 <= end && v.Vec? && Dec32(buf, off) == |v.elems| && CarriesElems(buf, off + 4, end, v.elems, e)
    case TRecord(fs) => v.Rec? && CarriesFields(buf, off, end, v.vals, fs)
  }

  ghost predicate CarriesElems(buf: seq<byte>, off: nat, end: nat, vs: seq<Value>, t: Type)
    decreases t, 2, |vs|
  {
    if vs == [] then off == end <= |buf|
    else exists mid: nat :: Carries(buf, off, mid, vs[0], t) && CarriesElems(buf, mid, end, vs[1..], t)
  }

  ghost predicate CarriesFields(buf: seq<byte>, off: nat, end: nat, vs: seq<Value>, ts: seq<Type>)
    decreases ts, 0
  {
    if ts == [] then vs == [] && off == end <= |buf|
    else vs != [] && exists mid: nat ::
           Carries(buf, off, mid, vs[0], ts[0]) && CarriesFields(buf, mid, end, vs[1..], ts[1..])
  }

  /** No vector inside, as for all elements of vectors in the protocol. */
  predicate Flat(t: Type) {
    !t.TVector? && (t.TRecord? ==> AllFlat(t.fields))
  }

  predicate AllFlat(ts: seq<Type>)
    decreases ts, 0
  {
    ts == [] || (Flat(ts[0]) && AllFlat(ts[1..]))
  }

  // ------------------------------------------------ what is carried is decoded

  lemma {:induction false} CarriedIsDecoded(buf: seq<byte>, off: nat, end: nat, v: Value, t: Type)
    requires Carries(buf, off, end, v, t)
    ensures Dec(t, buf, off) == Decoded(0, v, end)
    decreases t, 1
  {
    match t
    case TInt =>
    case TLong =>
    case TBool =>
    case TString =>
    case TBuffer =>
    case TVector(e) => CarriedElemsDecoded(buf, off + 4, end, v.elems, e);
    case TRecord(fs) => CarriedFieldsDecoded(buf, off, end, v.vals, fs);
  }

  lemma {:induction false} CarriedElemsDecoded(buf: seq<byte>, off: nat, end: nat, vs: seq<Value>, t: Type)
    requires CarriesElems(buf, off, end, vs, t) && off <= |buf|
    ensures DecElems(t, |vs|, buf, off, 0) == DecodedSeq(0, vs, end)
    decreases t, 2, |vs|
  {
    if vs != [] {
      var mid: nat :| Carries(buf, off, mid, vs[0], t) && CarriesElems(buf, mid, end, vs[1..], t);
      CarriedIsDecoded(buf, off, mid, vs[0], t);
      CarriedElemsDecoded(buf, mid, end, vs[1..], t);
      DecElemsStep(vs, t, buf, off, mid, end);
    }
  }

  lemma {:induction false} CarriedFieldsDecoded(buf: seq<byte>, off: nat, end: nat, vs: seq<Value>, ts: seq<Type>)
    requires CarriesFields(buf, off, end, vs, ts) && off <= |buf|
    ensures DecFields(ts, buf, off, 0) == DecodedSeq(0, vs, end)
    decreases ts, 0
  {
    if ts != [] {
      var mid: nat :| Carries(buf, off, mid, vs[0], ts[0]) && CarriesFields(buf, mid, end, vs[1..], ts[1..]);
      CarriedIsDecoded(buf, off, mid, vs[0], ts[0]);
      CarriedFieldsDecoded(buf, mid, end, vs[1..], ts[1..]);
      assert [vs[0]] + vs[1..] == vs;
    }
  }

  // ---------------------------------------- what is decoded without error is carried

  lemma {:induction false} ErrorStays(t: Type, n: nat, buf: seq<byte>, off: nat, rc: int)
    requires off <= |buf| && rc != 0
    ensures DecElems(t, n, buf, off, rc).rc == rc
  {
    if n > 0 { ErrorStays(t, n - 1, buf, off, rc); }
  }

  lemma {:induction false} FieldErrorStays(ts: seq<Type>, buf: seq<byte>, off: nat, rc: int)
    requires off <= |buf| && rc != 0
    ensures DecFields(ts, buf, off, rc).rc == rc
  {
    if ts != [] { FieldErrorStays(ts[1..], buf, off, rc); }
  }

  lemma {:induction false} DecodedIsCarried(buf: seq<byte>, off: nat, t: Type)
    requires Flat(t) && off <= |buf| && Dec(t, buf, off).rc == 0
    ensures var d := Dec(t, buf, off); Carries(buf, off, d.off, d.v, t)
    decreases t, 1
  {
    if t.TRecord? { DecodedFieldsCarried(buf, off, t.fields); }
  }

  lemma {:induction false} DecodedFieldsCarried(buf: seq<byte>, off: nat, ts: seq<Type>)
    requires AllFlat(ts) && off <= |buf| && DecFields(ts, buf, off, 0).rc == 0
    ensures var d := DecFields(ts, buf, off, 0); CarriesFields(buf, off, d.off, d.vs, ts)
    decreases ts, 0
  {
    if ts != [] {
      var d := Dec(ts[0], buf, off);
      if d.rc != 0 { FieldErrorStays(ts[1..], buf, d.off, d.rc); }
      DecodedIsCarried(buf, off, ts[0]);
      DecodedFieldsCarried(buf, d.off, ts[1..]);
      var r := DecFields(ts[1..], buf, d.off, 0);
      assert ([d.v] + r.vs)[0] == d.v && ([d.v] + r.vs)[1..] == r.vs;
    }
  }

  lemma {:induction false} DecodedElemsCarried(buf: seq<byte>, off: nat, n: nat, t: Type)
    requires Flat(t) && off <= |buf| && DecElems(t, n, buf, off, 0).rc == 0
    ensures var d := DecElems(t, n, buf, off, 0); CarriesElems(buf, off, d.off, d.vs, t)
    decreases n
  {
    if n > 0 {
      var d := Dec(t, buf, off);
      if d.rc != 0 { ErrorStays(t, n - 1, buf, d.off, d.rc); }
      DecodedIsCarried(buf, off, t);
      DecodedElemsCarried(buf, d.off, n - 1, t);
      var r := DecElems(t, n - 1, buf, d.off, 0);
      assert ([d.v] + r.vs)[0] == d.v && ([d.v] + r.vs)[1..] == r.vs;
    }
  }

  // ------------------------------------------------------------ read vectors

  /** Somewhere behind off the buffer carries a vector. */
  ghost predicate HasVector(buf: seq<byte>, off: nat, t: Type) {
    exists v, end: nat :: Carries(buf, off, end, v, TVector(t))
  }

  /** Reading a vector reports success; the vector is the one on the wire exactly when the
      count is there and not negative and the error code that is dropped on the way is 0.
      That is so exactly when the buffer carries as many elements as announced. */
  lemma VectorIsOnWireIff(t: Type, buf: seq<byte>, off: nat)
    requires Flat(t) && off <= |buf|
    ensures var d := Dec(TVector(t), buf, off);
            && d.rc == 0
            && (Carries(buf, off, d.off, d.v, TVector(t)) <==> HasVector(buf, off, t))
            && (HasVector(buf, off, t) <==>
                |buf| - off >= 4 && Dec32(buf, off) >= 0 && DecElems(t, Dec32(buf, off), buf, off + 4, 0).rc == 0)
  {
    var d := Dec(TVector(t), buf, off);
    if HasVector(buf, off, t) {
      var v, end: nat :| Carries(buf, off, end, v, TVector(t));
      CarriedIsDecoded(buf, off, end, v, TVector(t));
      CarriedElemsDecoded(buf, off + 4, end, v.elems, t);
    }
    if |buf| - off >= 4 && Dec32(buf, off) >= 0 && DecElems(t, Dec32(buf, off), buf, off + 4, 0).rc == 0 {
      DecodedElemsCarried(buf, off + 4, Dec32(buf, off), t);
      assert Carries(buf, off, d.off, d.v, TVector(t));
    }
  }

  // --------------------------------------------- vectors of strings and of ACLs

  /** A length that is not negative and stays within the buffer stands at off. */
  predicate TextAt(buf: seq<byte>, off: nat) {
    off + 4 <= |buf| && 0 <= Dec32(buf, off) <= |buf| - off - 4
  }

  function TextEnd(buf: seq<byte>, off: nat): (end: nat)
    requires TextAt(buf, off)
    ensures off + 4 <= end <= |buf|
  {
    off + 4 + Dec32(buf, off)
  }

  /** Walking over n announced lengths never leaves the buffer. */
  predicate TextsAt(buf: seq<byte>, off: nat, n: nat)
    decreases n
  {
    n == 0 || (TextAt(buf, off) && TextsAt(buf, TextEnd(buf, off), n - 1))
  }

  /** Four bytes of permissions, then scheme and id. */
  predicate AclAt(buf: seq<byte>, off: nat) {
    TextAt(buf, off + 4) && TextAt(buf, TextEnd(buf, off + 4))
  }

  function AclEnd(buf: seq<byte>, off: nat): (end: nat)
    requires AclAt(buf, off)
    ensures off <= end <= |buf|
  {
    TextEnd(buf, TextEnd(buf, off + 4))
  }

  predicate AclsAt(buf: seq<byte>, off: nat, n: nat)
    decreases n
  {
    n == 0 || (AclAt(buf, off) && AclsAt(buf, AclEnd(buf, off), n - 1))
  }

  /** A vector of strings that was read is the one on the wire exactly when its count and
      the lengths of its strings, one after the other, are not negative and lead nowhere
      outside the buffer. */
  lemma StringVectorIsOnWireIff(buf: seq<byte>, off: nat)
    requires off <= |buf|
    ensures HasVector(buf, off, TString) <==>
            |buf| - off >= 4 && 0 <= Dec32(buf, off) && TextsAt(buf, off + 4, Dec32(buf, off))
  {
    VectorIsOnWireIff(TString, buf, off);
    if |buf| - off >= 4 && Dec32(buf, off) >= 0 { TextsFound(buf, off + 4, Dec32(buf, off)); }
  }

  lemma {:induction false} TextsFound(buf: seq<byte>, off: nat, n: nat)
    requires off <= |buf|
    ensures DecElems(TString, n, buf, off, 0).rc == 0 <==> TextsAt(buf, off, n)
    decreases n
  {
    if n > 0 {
      var d := Dec(TString, buf, off);
      assert d.rc == 0 <==> TextAt(buf, off);
      if d.rc == 0 { TextsFound(buf, d.off, n - 1); } else { ErrorStays(TString, n - 1, buf, d.off, d.rc); }
    }
  }

  /** The same for the ACLs of a node. */
  lemma AclVectorIsOnWireIff(buf: seq<byte>, off: nat)
    requires off <= |buf|
    ensures HasVector(buf, off, AclType) <==>
            |buf| - off >= 4 && 0 <= Dec32(buf, off) && AclsAt(buf, off + 4, Dec32(buf, off))
  {
    FlatPair(TString, TString);
    FlatPair(TInt, IdType);
    VectorIsOnWireIff(AclType, buf, off);
    if |buf| - off >= 4 && Dec32(buf, off) >= 0 { AclsFound(buf, off + 4, Dec32(buf, off)); }
  }

  lemma FlatPair(s: Type, t: Type)
    requires Flat(s) && Flat(t)
    ensures Flat(TRecord([s, t]))
  {
    assert [s, t][1..] == [t] && [t][1..] == [];
    assert AllFlat([]) && AllFlat([t]) && AllFlat([s, t]);
  }

  lemma {:induction false} AclsFound(buf: seq<byte>, off: nat, n: nat)
    requires off <= |buf|
    ensures DecElems(AclType, n, buf, off, 0).rc == 0 <==> AclsAt(buf, off, n)
    decreases n
  {
    if n > 0 {
      var d := Dec(AclType, buf, off);
      AclFound(buf, off);
      if d.rc == 0 { AclsFound(buf, d.off, n - 1); } else { ErrorStays(AclType, n - 1, buf, d.off, d.rc); }
    }
  }

  lemma AclFound(buf: seq<byte>, off: nat)
    requires off <= |buf|
    ensures var d := Dec(AclType, buf, off);
            (d.rc == 0 <==> AclAt(buf, off)) && (d.rc == 0 ==> d.off == AclEnd(buf, off))
  {
    var a := Dec(TInt, buf, off);
    IdFound(buf, a.off);
    DecFieldsCons(IdType, [], buf, a.off, a.rc);
    DecFieldsCons(TInt, [IdType], buf, off, 0);
    assert [TInt] + [IdType] == [TInt, IdType] && [IdType] + [] == [IdType];
  }

  lemma IdFound(buf: seq<byte>, off: nat)
    requires off <= |buf|
    ensures var d := Dec(IdType, buf, off);
            && (d.rc == 0 <==> TextAt(buf, off) && TextAt(buf, TextEnd(buf, off)))
            && (d.rc == 0 ==> d.off == TextEnd(buf, TextEnd(buf, off)))
  {
    DecFields2(TString, TString, buf, off, 0);
  }

  /** A count of two with one string behind it: success is reported, and the second string
      is a null pointer. */
  lemma ShortVectorIsPadded()
    ensures var b: seq<byte> := [0, 0, 0, 2, 0, 0, 0, 1, 97];
            && Dec(StringVectorType, b, 0) == Decoded(0, Vec([Str(Some([97])), Str(None)]), 9)
            && !HasVector(b, 0, TString)
  {
    var b: seq<byte> := [0, 0, 0, 2, 0, 0, 0, 1, 97];
    assert Dec32(b, 0) == 2 && Dec32(b, 4) == 1;
    StringVectorIsOnWireIff(b, 0);
    assert TextEnd(b, 4) == 9 && !TextsAt(b, 9, 1);
    assert UptoNul([97]) == [97] by { assert [97 as byte][1..] == []; }
    assert b[8..9] == [97];
    assert Dec(TString, b, 4) == Decoded(0, Str(Some([97])), 9) && Dec(TString, b, 9) == Decoded(E2BIG, Str(None), 9);
    assert DecElems(TString, 0, b, 9, E2BIG) == DecodedSeq(E2BIG, [], 9);
    assert DecElems(TString, 1, b, 9, 0) == DecodedSeq(E2BIG, [Str(None)], 9);
    assert DecElems(TString, 2, b, 4, 0) == DecodedSeq(E2BIG, [Str(Some([97])), Str(None)], 9);
  }
}
