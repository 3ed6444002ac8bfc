/**
 What the printer and the parser do, said of bytes and values alone: which formats are
 used, that none is longer than it has to be, what is raised on what, and what a key is.
 */
module MsgpackLaws {
  import opened Base
  import opened Bytes
  import opened Msgpack
  import opened MsgpackProofs
  import opened Singles

  // ------------------------------------------------------------------- the formats

  /** The formats of the specification's overview a value can be printed in, by first byte. */
  predicate InFormat(v: Value, tag: Byte) {
    match v
    case Nil => tag == 0xC0
    case Bool(b) => tag == if b then 0xC3 else 0xC2
    case Int(n) => if n >= 0 then tag < 0x80 || 0xCC <= tag <= 0xCF else 0xE0 <= tag || 0xD0 <= tag <= 0xD3
    case Float(_) => tag == 0xCB
    case Str(_) => 0xA0 <= tag <= 0xBF || 0xD9 <= tag <= 0xDB
    case Bin(_) => 0xC4 <= tag <= 0xC6
    case List(_) => 0x90 <= tag <= 0x9F || 0xDC <= tag <= 0xDD
    case Tuple(_) => 0x90 <= tag <= 0x9F || 0xDC <= tag <= 0xDD
    case Map(_) => 0x80 <= tag <= 0x8F || 0xDE <= tag <= 0xDF
  }

  lemma PrintsInFormat(v: Value)
    requires Encode(v).Ok?
    ensures Encode(v).value != [] && InFormat(v, Encode(v).value[0])
  {
    hide BigEndian, EncodeItems, EncodeEntries;
  }

  /** No bytes that read as this head are fewer than those it is printed in; floats aside,
      which are read from four bytes and always printed in eight. */
  lemma HeadIsShortest(v: Value, raw: seq<Byte>)
    requires !v.Float? && DecodeHead(raw, 0) == Ok((HeadOf(v), |raw|))
    ensures EncodeHead(v).Ok? && |EncodeHead(v).value| <= |raw|
  {
    hide EncodeInt, StrHead, BinHead, ArrayHead, MapHead, DecodeHead;
    match v
    case Int(n) => IntIsShortest(n, raw);
    case Nil => HeadHasBytes(raw);
    case Bool(_) => HeadHasBytes(raw);
    case Str(utf8) => LengthIsShortest(v, |utf8|, raw);
    case Bin(bytes) => LengthIsShortest(v, |bytes|, raw);
    case List(items) => LengthIsShortest(v, |items|, raw);
    case Tuple(items) => LengthIsShortest(v, |items|, raw);
    case Map(entries) => LengthIsShortest(v, |entries|, raw);
  }

  lemma HeadHasBytes(raw: seq<Byte>)
    requires DecodeHead(raw, 0).Ok?
    ensures raw != []
  {
  }

  lemma IntIsShortest(n: int, raw: seq<Byte>)
    requires DecodeHead(raw, 0) == Ok((Whole(Int(n)), |raw|))
    ensures EncodeInt(n).Ok? && |EncodeInt(n).value| <= |raw|
  {
    hide Unsigned, Signed, BigEndian, Widen, Pow256;
    if FieldWidth(raw[0]) > 0 { FieldBound(raw[1..1 + FieldWidth(raw[0])]); }
  }

  lemma LengthIsShortest(v: Value, n: nat, raw: seq<Byte>)
    requires DecodeHead(raw, 0) == Ok((HeadOf(v), |raw|))
    ensures v.Str? && n == |v.utf8| ==> StrHead(n).Ok? && |StrHead(n).value| + n <= |raw|
    ensures v.Bin? && n == |v.bytes| ==> BinHead(n).Ok? && |BinHead(n).value| + n <= |raw|
    ensures (v.List? || v.Tuple?) && n == |v.items| ==> ArrayHead(n).Ok? && |ArrayHead(n).value| <= |raw|
    ensures v.Map? && n == |v.entries| ==> MapHead(n).Ok? && |MapHead(n).value| <= |raw|
  {
    hide Unsigned, Signed, BigEndian, Widen, Pow256;
    if FieldWidth(raw[0]) > 0 { FieldBound(raw[1..1 + FieldWidth(raw[0])]); }
  }

  lemma FieldBound(bs: seq<Byte>)
    requires |bs| <= 8
    ensures var u, w := Unsigned(bs), |bs|;
            && (w == 1 ==> u < 0x100 && -0x80 <= Signed(bs) < 0x80)
            && (w == 2 ==> u < 0x1_0000 && -0x8000 <= Signed(bs) < 0x8000)
            && (w == 4 ==> u < 0x1_0000_0000 && -0x8000_0000 <= Signed(bs) < 0x8000_0000)
            && (w == 8 ==> u < 0x1_0000_0000_0000_0000
                           && -0x8000_0000_0000_0000 <= Signed(bs) < 0x8000_0000_0000_0000)
  {
    UnsignedBound(bs);
    Powers();
    hide Unsigned, Pow256;
  }

  // ------------------------------------------------------------------ what is raised

  /** The tags of the extension formats, and the one never used, are refused; nothing else is. */
  lemma RefusesExtensions(raw: seq<Byte>, pos: nat, tag: Byte)
    ensures DecodeHead(raw, pos) == Err(Unsupported(tag)) <==>
              pos < |raw| && raw[pos] == tag && (tag == 0xC1 || 0xC7 <= tag <= 0xC9 || 0xD4 <= tag <= 0xD8)
  {
    hide Unsigned, BigEndian, Widen, Pow256;
  }

  /** A parse cut short anywhere raises for want of bytes. */
  lemma HeadCutShort(a: seq<Byte>, pos: nat, n: nat)
    requires DecodeHead(a, pos).Ok? && n < DecodeHead(a, pos).value.1 && n <= |a|
    ensures DecodeHead(a[..n], pos) == Err(Truncated)
  {
    hide Unsigned, Signed, Widen, Pow256;
    if pos < n {
      var b, p, w := a[..n], pos + 1, FieldWidth(a[pos]);
      assert b[pos] == a[pos];
      if p + w <= n { assert b[p..p + w] == a[p..p + w]; }
    }
  }

  lemma HeadBefore(a: seq<Byte>, pos: nat, n: nat)
    requires DecodeHead(a, pos).Ok? && DecodeHead(a, pos).value.1 <= n <= |a|
    ensures DecodeHead(a[..n], pos) == DecodeHead(a, pos)
  {
    hide DecodeHead;
    assert a[..n][..n] == a[..n];
    HeadIsLocal(a, a[..n], pos, n);
  }

  lemma {:induction false} CutShort(a: seq<Byte>, pos: nat, n: nat)
    requires DecodeAt(a, pos).Ok? && n < DecodeAt(a, pos).value.1 && n <= |a|
    ensures DecodeAt(a[..n], pos) == Err(Truncated)
    decreases |a| - pos, 0
  {
    hide DecodeHead;
    var h, p := DecodeHead(a, pos).value.0, DecodeHead(a, pos).value.1;
    if n < p {
      HeadCutShort(a, pos, n);
    } else {
      HeadBefore(a, pos, n);
      match h
      case Whole(_) =>
      case Items(k) => ItemsCutShort(a, p, n, k, []);
      case Entries(k) => EntriesCutShort(a, p, n, k, []);
    }
  }

  lemma Before(a: seq<Byte>, pos: nat, n: nat)
    requires DecodeAt(a, pos).Ok? && DecodeAt(a, pos).value.1 <= n <= |a|
    ensures DecodeAt(a[..n], pos) == DecodeAt(a, pos)
  {
    hide DecodeAt;
    assert a[..n][..n] == a[..n];
    DecodeIsLocal(a, a[..n], pos, n);
  }

  lemma {:induction false} ItemsCutShort(a: seq<Byte>, pos: nat, n: nat, k: nat, acc: seq<Value>)
    requires pos <= n <= |a| && DecodeItems(a, pos, k, acc).Ok? && n < DecodeItems(a, pos, k, acc).value.1
    ensures DecodeItems(a[..n], pos, k, acc) == Err(Truncated)
    decreases |a| - pos, 1
  {
    if k > 0 {
      var v := DecodeAt(a, pos).value;
      if n < v.1 {
        CutShort(a, pos, n);
      } else {
        Before(a, pos, n);
        ItemsCutShort(a, v.1, n, k - 1, acc + [v.0]);
      }
    }
  }

  lemma {:induction false} EntriesCutShort(a: seq<Byte>, pos: nat, n: nat, k: nat, acc: seq<Entry>)
    requires pos <= n <= |a| && DecodeEntries(a, pos, k, acc).Ok? && n < DecodeEntries(a, pos, k, acc).value.1
    ensures DecodeEntries(a[..n], pos, k, acc) == Err(Truncated)
    decreases |a| - pos, 1
  {
    if k > 0 {
      var key := DecodeAt(a, pos).value;
      if n < key.1 {
        CutShort(a, pos, n);
      } else {
        Before(a, pos, n);
        var v := DecodeAt(a, key.1).value;
        if n < v.1 {
          CutShort(a, key.1, n);
        } else {
          Before(a, key.1, n);
          EntriesCutShort(a, v.1, n, k - 1, Store(acc, key.0, v.0));
        }
      }
    }
  }

  /** Of a string that parses, every strict prefix is truncated and every extension has
      something trailing. */
  lemma WholeOrRaises(raw: seq<Byte>, n: nat, more: seq<Byte>)
    requires Decode(raw).Ok? && n < |raw| && more != []
    ensures Decode(raw[..n]) == Err(Truncated) && Decode(raw + more) == Err(Trailing)
  {
    hide DecodeAt;
    CutShort(raw, 0, n);
    assert (raw + more)[..|raw|] == raw[..|raw|];
    DecodeIsLocal(raw, raw + more, 0, |raw|);
  }

  // ------------------------------------------------------------------------- numbers

  lemma PowSplit(e: int)
    ensures Pow2(e) == Pow2(e - 52) * 0x10_0000_0000_0000 as real && Pow2(e) == Pow2(e - 23) * 0x80_0000 as real
  {
    Shift52And53();
    hide Pow2, ShiftLeft;
    ShiftIsScale(false, 1, 52, e - 52);
    ShiftIsScale(false, 1, 23, e - 23);
  }

  /** One plus so many parts of a whole, times a power of two. */
  function Normal(negative: bool, f: nat, parts: nat, e: int): real
    requires parts > 0
  {
    (if negative then -1.0 else 1.0) * (1.0 + f as real / parts as real) * Pow2(e)
  }

  function Subnormal(negative: bool, f: nat, parts: nat, e: int): real
    requires parts > 0
  {
    (if negative then -1.0 else 1.0) * (f as real / parts as real) * Pow2(e)
  }

  lemma ScaledIs(negative: bool, f: nat, parts: nat, e: int, k: int)
    requires parts > 0 && Pow2(e) == Pow2(k) * parts as real
    ensures Scaled(negative, parts + f, k) == Normal(negative, f, parts, e)
    ensures Scaled(negative, f, k) == Subnormal(negative, f, parts, e)
  {
    hide Pow2;
    var s, x, n, p := if negative then -1.0 else 1.0, f as real, parts as real, Pow2(k);
    assert (parts + f) as real == n + x;
    Rescaled(s, x, n, p);
  }

  lemma Rescaled(s: real, x: real, n: real, p: real)
    requires n > 0.0
    ensures s * (n + x) * p == s * (1.0 + x / n) * (p * n)
    ensures s * x * p == s * (x / n) * (p * n)
  {
    var y := x / n;
    assert x == y * n;
    assert n + x == (1.0 + y) * n;
    assert s * ((1.0 + y) * n) * p == s * (1.0 + y) * (p * n);
    assert s * (y * n) * p == s * y * (p * n);
  }

  /** A double is what section 3.4 of IEEE 754 says of its sign, exponent and fraction. */
  lemma DoubleIs(negative: bool, e: nat, f: nat)
    requires e < 0x800 && f < 0x10_0000_0000_0000
    ensures var bits := (if negative then 1 else 0) * 0x8000_0000_0000_0000 + e * 0x10_0000_0000_0000 + f;
            FloatNumber(BigEndian(bits, 8))
              == if e == 0x7FF then (if f == 0 then Infinite(negative) else NotANumber)
                 else if e == 0 then Finite(Subnormal(negative, f, 0x10_0000_0000_0000, -1022))
                 else Finite(Normal(negative, f, 0x10_0000_0000_0000, e - 1023))
  {
    hide FloatNumber, Scaled, Pow2, Normal, Subnormal;
    FieldsComeApart(negative, e, f);
    PowSplit(e - 1023);
    PowSplit(-1022);
    if e == 0 {
      ScaledIs(negative, f, 0x10_0000_0000_0000, -1022, -1074);
    } else if e < 0x7FF {
      ScaledIs(negative, f, 0x10_0000_0000_0000, e - 1023, e - 1075);
    }
  }

  /** And so is a single. */
  lemma SingleIs(w: seq<Byte>)
    requires |w| == 4
    ensures var bits := Unsigned(w);
            var negative, e, f := bits >= 0x8000_0000, bits / 0x80_0000 % 0x100, bits % 0x80_0000;
            SingleNumber(w)
              == if e == 0xFF then (if f == 0 then Infinite(negative) else NotANumber)
                 else if e == 0 then Finite(Subnormal(negative, f, 0x80_0000, -126))
                 else Finite(Normal(negative, f, 0x80_0000, e - 127))
  {
    hide Scaled, Pow2, Normal, Subnormal, Unsigned;
    var bits := Unsigned(w);
    var negative, f := bits >= 0x8000_0000, bits % 0x80_0000;
    var e: int := bits / 0x80_0000 % 0x100;
    PowSplit(e - 127);
    PowSplit(-126);
    if e == 0 {
      ScaledIs(negative, f, 0x80_0000, -126, -149);
    } else if e < 0xFF {
      ScaledIs(negative, f, 0x80_0000, e - 127, e - 150);
    }
  }

  // ---------------------------------------------------------------------------- keys

  /** There is a not-a-number in it, where a key is compared. */
  predicate HoldsNaN(v: Value) {
    match v
    case Float(w) => FloatNumber(w).NotANumber?
    case List(items) => exists i :: 0 <= i < |items| && HoldsNaN(items[i])
    case Tuple(items) => exists i :: 0 <= i < |items| && HoldsNaN(items[i])
    case _ => false
  }

  lemma {:induction false} SameKeyReflexive(a: Value)
    ensures SameKey(a, a) <==> !HoldsNaN(a)
  {
    hide FloatNumber;
    if a.List? || a.Tuple? {
      forall i | 0 <= i < |a.items| ensures SameKey(a.items[i], a.items[i]) <==> !HoldsNaN(a.items[i]) {
        SameKeyReflexive(a.items[i]);
      }
    }
  }

  lemma {:induction false} SameKeySymmetric(a: Value, b: Value)
    ensures SameKey(a, b) ==> SameKey(b, a)
  {
    hide FloatNumber;
    if SameKey(a, b) && ((a.List? && b.List?) || (a.Tuple? && b.Tuple?)) {
      forall i | 0 <= i < |a.items| ensures SameKey(b.items[i], a.items[i]) {
        SameKeySymmetric(a.items[i], b.items[i]);
      }
    }
  }

  lemma {:induction false} SameKeyTransitive(a: Value, b: Value, c: Value)
    requires SameKey(a, b) && SameKey(b, c)
    ensures SameKey(a, c)
  {
    hide FloatNumber;
    if (a.List? && b.List?) || (a.Tuple? && b.Tuple?) {
      forall i | 0 <= i < |a.items| ensures SameKey(a.items[i], c.items[i]) {
        SameKeyTransitive(a.items[i], b.items[i], c.items[i]);
      }
    }
  }

  /** A number is the same key as a float of its value, and the truth values are one and zero;
      nothing else that is hashable and read is the same key as another. */
  lemma KeysAlike(n: int, b: bool, w: Word, x: Value)
    ensures SameKey(Int(n), Float(w)) <==> FloatNumber(w) == Finite(n as real)
    ensures SameKey(Int(n), Bool(b)) <==> n == if b then 1 else 0
    ensures (x.Nil? || x.Str? || x.Bin?) ==> forall y :: SameKey(x, y) <==> x == y
  {
    hide FloatNumber;
  }

  /** A key that is there takes the new value where it stands and as it stands; any other goes
      last. */
  lemma {:induction false} StorePuts(d: seq<Entry>, key: Value, value: Value) returns (i: nat)
    ensures i <= |d| && |Store(d, key, value)| == Most(|d|, i + 1)
    ensures forall j :: 0 <= j < i ==> !SameKey(d[j].key, key)
    ensures i < |d| ==> SameKey(d[i].key, key)
    ensures Store(d, key, value)[i] == Entry(if i < |d| then d[i].key else key, value)
    ensures forall j :: 0 <= j < |d| && j != i ==> Store(d, key, value)[j] == d[j]
  {
    hide SameKey;
    if d == [] || SameKey(d[0].key, key) {
      i := 0;
    } else {
      var k := StorePuts(d[1..], key, value);
      i := k + 1;
      assert Store(d, key, value) == [d[0]] + Store(d[1..], key, value);
      assert forall j :: 0 < j < |d| ==> d[j] == d[1..][j - 1];
    }
  }
}
