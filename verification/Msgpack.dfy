/**
 The MessagePack codec: the printer, the parser, and the values they exchange.

 The formats are those of the MessagePack specification, sections "int format
 family", "float format family", "str format family", "bin format family",
 "array format family" and "map format family".  Strings are their UTF-8 bytes
 and floats their eight-byte words.
 */
module Msgpack {
  import opened Base
  import opened Bytes

  type Word = w: seq<Byte> | |w| == 8 witness [0, 0, 0, 0, 0, 0, 0, 0]

  /** The values the codec carries.  A list and a tuple print alike, and only lists are read. */
  datatype Value =
    | Nil
    | Bool(b: bool)
    | Int(n: int)
    | Float(word: Word)
    | Str(utf8: seq<Byte>)
    | Bin(bytes: seq<Byte>)
    | List(items: seq<Value>)
    | Tuple(items: seq<Value>)
    | Map(entries: seq<Entry>)

  datatype Entry = Entry(key: Value, value: Value)

  datatype Error = OutOfRange | TooLong | Truncated | Unsupported(tag: Byte) | Unhashable | Trailing

  // ---------------------------------------------------------------- signed integers

  /** Two's complement, as `struct` packs the signed formats. */
  function Signed(bs: seq<Byte>): int {
    var u, m := Unsigned(bs), Pow256(|bs|);
    if 2 * u < m then u else u - m
  }

  // ---------------------------------------------------------------------- encoding

  /** The whole encoding of an integer, in the first format that holds it. */
  function EncodeInt(n: int): Result<seq<Byte>, Error> {
    if 0 <= n < 0x80 then Ok([n])
    else if -0x20 <= n < 0 then Ok([n + 0x100])
    else if 0 <= n <= 0xFF then Ok([0xCC] + BigEndian(n, 1))
    else if 0 <= n <= 0xFFFF then Ok([0xCD] + BigEndian(n, 2))
    else if 0 <= n <= 0xFFFF_FFFF then Ok([0xCE] + BigEndian(n, 4))
    else if 0 <= n <= 0xFFFF_FFFF_FFFF_FFFF then Ok([0xCF] + BigEndian(n, 8))
    else if -0x80 <= n < 0 then Ok([0xD0] + BigEndian(n + 0x100, 1))
    else if -0x8000 <= n < 0 then Ok([0xD1] + BigEndian(n + 0x1_0000, 2))
    else if -0x8000_0000 <= n < 0 then Ok([0xD2] + BigEndian(n + 0x1_0000_0000, 4))
    else if -0x8000_0000_0000_0000 <= n < 0 then Ok([0xD3] + BigEndian(n + 0x1_0000_0000_0000_0000, 8))
    else Err(OutOfRange)
  }

  function StrHead(n: nat): Result<seq<Byte>, Error> {
    if n < 32 then Ok([0xA0 + n])
    else if n <= 0xFF then Ok([0xD9] + BigEndian(n, 1))
    else if n <= 0xFFFF then Ok([0xDA] + BigEndian(n, 2))
    else if n <= 0xFFFF_FFFF then Ok([0xDB] + BigEndian(n, 4))
    else Err(TooLong)
  }

  function BinHead(n: nat): Result<seq<Byte>, Error> {
    if n <= 0xFF then Ok([0xC4] + BigEndian(n, 1))
    else if n <= 0xFFFF then Ok([0xC5] + BigEndian(n, 2))
    else if n <= 0xFFFF_FFFF then Ok([0xC6] + BigEndian(n, 4))
    else Err(TooLong)
  }

  function ArrayHead(n: nat): Result<seq<Byte>, Error> {
    if n < 16 then Ok([0x90 + n])
    else if n <= 0xFFFF then Ok([0xDC] + BigEndian(n, 2))
    else if n <= 0xFFFF_FFFF then Ok([0xDD] + BigEndian(n, 4))
    else Err(TooLong)
  }

  function MapHead(n: nat): Result<seq<Byte>, Error> {
    if n < 16 then Ok([0x80 + n])
    else if n <= 0xFFFF then Ok([0xDE] + BigEndian(n, 2))
    else if n <= 0xFFFF_FFFF then Ok([0xDF] + BigEndian(n, 4))
    else Err(TooLong)
  }

  /** The bytes a value starts with: all of it, except the elements of a container. */
  function EncodeHead(v: Value): Result<seq<Byte>, Error> {
    match v
    case Nil => Ok([0xC0])
    case Bool(b) => Ok([if b then 0xC3 else 0xC2])
    case Int(n) => EncodeInt(n)
    case Float(word) => Ok([0xCB] + word)
    case Str(utf8) => Then(StrHead(|utf8|), Ok(utf8))
    case Bin(bytes) => Then(BinHead(|bytes|), Ok(bytes))
    case List(items) => ArrayHead(|items|)
    case Tuple(items) => ArrayHead(|items|)
    case Map(entries) => MapHead(|entries|)
  }

  /** One output after another; the first failure is the failure. */
  function Then(a: Result<seq<Byte>, Error>, b: Result<seq<Byte>, Error>): Result<seq<Byte>, Error> {
    if a.Err? then a else if b.Err? then b else Ok(a.value + b.value)
  }

  function Encode(v: Value): Result<seq<Byte>, Error>
    decreases v, 0
  {
    match v
    case List(items) => Then(EncodeHead(v), EncodeItems(items))
    case Tuple(items) => Then(EncodeHead(v), EncodeItems(items))
    case Map(entries) => Then(EncodeHead(v), EncodeEntries(entries))
    case _ => EncodeHead(v)
  }

  function EncodeItems(items: seq<Value>): Result<seq<Byte>, Error>
    decreases items, 1
  {
    if items == [] then Ok([]) else Then(Encode(items[0]), EncodeItems(items[1..]))
  }

  function EncodeEntries(entries: seq<Entry>): Result<seq<Byte>, Error>
    decreases entries, 1
  {
    if entries == [] then Ok([]) else Then(EncodeEntry(entries[0]), EncodeEntries(entries[1..]))
  }

  function EncodeEntry(e: Entry): Result<seq<Byte>, Error>
    decreases e, 1
  {
    Then(Encode(e.key), Encode(e.value))
  }

  // ------------------------------------------------------------- keys of a dictionary

  function Pow2(e: int): real
    decreases if e < 0 then -e else e
  {
    if e == 0 then 1.0 else if e > 0 then 2.0 * Pow2(e - 1) else Pow2(e + 1) / 2.0
  }

  /** A signed whole number times a power of two. */
  function Scaled(negative: bool, m: nat, e: int): real {
    (if negative then -1.0 else 1.0) * m as real * Pow2(e)
  }

  datatype Number = Finite(r: real) | Infinite(negative: bool) | NotANumber

  /** The number an eight-byte word stands for: sign, eleven bits of exponent, 52 of fraction. */
  function FloatNumber(word: Word): Number {
    var bits := Unsigned(word);
    var fraction, exponent, negative :=
      bits % 0x10_0000_0000_0000, (bits / 0x10_0000_0000_0000) % 0x800, bits >= 0x8000_0000_0000_0000;
    if exponent == 0x7FF then (if fraction == 0 then Infinite(negative) else NotANumber)
    else if exponent == 0 then Finite(Scaled(negative, fraction, -1074))
    else Finite(Scaled(negative, 0x10_0000_0000_0000 + fraction, exponent - 1075))
  }

  function NumberOf(v: Value): Option<Number> {
    match v
    case Bool(b) => Some(Finite(if b then 1.0 else 0.0))
    case Int(n) => Some(Finite(n as real))
    case Float(word) => Some(FloatNumber(word))
    case _ => None
  }

  /** Python's equality of dictionary keys: numbers by value, whatever their type. */
  predicate SameKey(a: Value, b: Value) {
    if NumberOf(a).Some? || NumberOf(b).Some? then NumberOf(a) == NumberOf(b) && NumberOf(a) != Some(NotANumber)
    else if (a.List? && b.List?) || (a.Tuple? && b.Tuple?) then
      |a.items| == |b.items| && forall i :: 0 <= i < |a.items| ==> SameKey(a.items[i], b.items[i])
    else a == b
  }

  /** A list or a dictionary cannot be a key; a tuple is never read. */
  predicate Hashable(key: Value) { !key.List? && !key.Map? }

  /** `d[key] = value`: a key already there keeps its place and takes the new value. */
  function Store(d: seq<Entry>, key: Value, value: Value): seq<Entry> {
    if d == [] then [Entry(key, value)]
    else if SameKey(d[0].key, key) then [Entry(d[0].key, value)] + d[1..]
    else [d[0]] + Store(d[1..], key, value)
  }

  // ---------------------------------------------------------------------- decoding

  /** Highest set bit of a fraction, as the exponent it gives. */
  function Log2(n: nat): nat
    requires n > 0
  {
    if n == 1 then 0 else 1 + Log2(n / 2)
  }

  function ShiftLeft(n: nat, k: int): nat
    decreases k
  {
    if k <= 0 then n else 2 * ShiftLeft(n, k - 1)
  }

  /** Exponent and fraction of the double with the value of a single's. */
  function WidenFields(exponent: nat, fraction: nat): (nat, nat) {
    if exponent == 0xFF then (0x7FF, ShiftLeft(fraction, 29))
    else if exponent > 0 then (exponent + 896, ShiftLeft(fraction, 29))
    else if fraction == 0 then (0, 0)
    else (Log2(fraction) + 874, ShiftLeft(fraction, 52 - Log2(fraction)) % 0x10_0000_0000_0000)
  }

  /** A single-precision word as a double; `Singles.WidenKeepsTheNumber` says of which value. */
  function Widen(w: seq<Byte>): Word {
    var bits := Unsigned(w);
    var (exponent, fraction) := WidenFields((bits / 0x80_0000) % 0x100, bits % 0x80_0000);
    BigEndian(bits / 0x8000_0000 * 0x8000_0000_0000_0000 + exponent * 0x10_0000_0000_0000 + fraction, 8)
  }

  /** What the bytes at a position start with. */
  datatype Head = Whole(value: Value) | Items(n: nat) | Entries(n: nat)

  type Parsed<T> = Result<(T, nat), Error>

  function TakeBytes(raw: seq<Byte>, pos: nat, n: nat): Parsed<seq<Byte>> {
    if pos + n > |raw| then Err(Truncated) else Ok((raw[pos..pos + n], pos + n))
  }

  function DecodeUnsigned(raw: seq<Byte>, pos: nat, width: nat): Parsed<nat> {
    if pos + width > |raw| then Err(Truncated) else Ok((Unsigned(raw[pos..pos + width]), pos + width))
  }

  function DecodeSigned(raw: seq<Byte>, pos: nat, width: nat): Parsed<Head> {
    if pos + width > |raw| then Err(Truncated) else Ok((Whole(Int(Signed(raw[pos..pos + width]))), pos + width))
  }

  function WholeUnsigned(r: Parsed<nat>): Parsed<Head> {
    if r.Err? then Err(r.error) else Ok((Whole(Int(r.value.0)), r.value.1))
  }

  function WholeStr(r: Parsed<seq<Byte>>): Parsed<Head> {
    if r.Err? then Err(r.error) else Ok((Whole(Str(r.value.0)), r.value.1))
  }

  function WholeBin(r: Parsed<seq<Byte>>): Parsed<Head> {
    if r.Err? then Err(r.error) else Ok((Whole(Bin(r.value.0)), r.value.1))
  }

  /** The tag at a position and everything it says that is not another value. */
  function DecodeHead(raw: seq<Byte>, pos: nat): (r: Parsed<Head>)
    ensures r.Ok? ==> pos < r.value.1 <= |raw|
  {
    if pos >= |raw| then Err(Truncated)
    else
      var tag, p := raw[pos], pos + 1;
      if tag <= 0x7F then Ok((Whole(Int(tag)), p))
      else if tag >= 0xE0 then Ok((Whole(Int(tag as int - 0x100)), p))
      else if 0x80 <= tag <= 0x8F then Ok((Entries(tag - 0x80), p))
      else if 0x90 <= tag <= 0x9F then Ok((Items(tag - 0x90), p))
      else if 0xA0 <= tag <= 0xBF then WholeStr(TakeBytes(raw, p, tag - 0xA0))
      else if tag == 0xC0 then Ok((Whole(Nil), p))
      else if tag == 0xC2 then Ok((Whole(Bool(false)), p))
      else if tag == 0xC3 then Ok((Whole(Bool(true)), p))
      else if 0xC4 <= tag <= 0xC6 then
        var n := DecodeUnsigned(raw, p, if tag == 0xC4 then 1 else if tag == 0xC5 then 2 else 4);
        if n.Err? then Err(n.error) else WholeBin(TakeBytes(raw, n.value.1, n.value.0))
      else if tag == 0xCA then
        if p + 4 > |raw| then Err(Truncated) else Ok((Whole(Float(Widen(raw[p..p + 4]))), p + 4))
      else if tag == 0xCB then
        if p + 8 > |raw| then Err(Truncated) else Ok((Whole(Float(raw[p..p + 8])), p + 8))
      else if tag == 0xCC then WholeUnsigned(DecodeUnsigned(raw, p, 1))
      else if tag == 0xCD then WholeUnsigned(DecodeUnsigned(raw, p, 2))
      else if tag == 0xCE then WholeUnsigned(DecodeUnsigned(raw, p, 4))
      else if tag == 0xCF then WholeUnsigned(DecodeUnsigned(raw, p, 8))
      else if tag == 0xD0 then DecodeSigned(raw, p, 1)
      else if tag == 0xD1 then DecodeSigned(raw, p, 2)
      else if tag == 0xD2 then DecodeSigned(raw, p, 4)
      else if tag == 0xD3 then DecodeSigned(raw, p, 8)
      else if 0xD9 <= tag <= 0xDB then
        var n := DecodeUnsigned(raw, p, if tag == 0xD9 then 1 else if tag == 0xDA then 2 else 4);
        if n.Err? then Err(n.error) else WholeStr(TakeBytes(raw, n.value.1, n.value.0))
      else if 0xDC <= tag <= 0xDD then
        var n := DecodeUnsigned(raw, p, if tag == 0xDC then 2 else 4);
        if n.Err? then Err(n.error) else Ok((Items(n.value.0), n.value.1))
      else if 0xDE <= tag <= 0xDF then
        var n := DecodeUnsigned(raw, p, if tag == 0xDE then 2 else 4);
        if n.Err? then Err(n.error) else Ok((Entries(n.value.0), n.value.1))
      else Err(Unsupported(tag))
  }

  function DecodeAt(raw: seq<Byte>, pos: nat): (r: Parsed<Value>)
    ensures r.Ok? ==> pos < r.value.1 <= |raw|
    decreases |raw| - pos, 0
  {
    var h := DecodeHead(raw, pos);
    if h.Err? then Err(h.error)
    else
      var p := h.value.1;
      match h.value.0
      case Whole(v) => Ok((v, p))
      case Items(n) =>
        var r := DecodeItems(raw, p, n, []);
        if r.Err? then Err(r.error) else Ok((List(r.value.0), r.value.1))
      case Entries(n) =>
        var r := DecodeEntries(raw, p, n, []);
        if r.Err? then Err(r.error) else Ok((Map(r.value.0), r.value.1))
  }

  function DecodeItems(raw: seq<Byte>, pos: nat, n: nat, acc: seq<Value>): (r: Parsed<seq<Value>>)
    requires pos <= |raw|
    ensures r.Ok? ==> pos <= r.value.1 <= |raw|
    decreases |raw| - pos, 1
  {
    if n == 0 then Ok((acc, pos))
    else
      var v := DecodeAt(raw, pos);
      if v.Err? then Err(v.error) else DecodeItems(raw, v.value.1, n - 1, acc + [v.value.0])
  }

  function DecodeEntries(raw: seq<Byte>, pos: nat, n: nat, acc: seq<Entry>): (r: Parsed<seq<Entry>>)
    requires pos <= |raw|
    ensures r.Ok? ==> pos <= r.value.1 <= |raw|
    decreases |raw| - pos, 1
  {
    if n == 0 then Ok((acc, pos))
    else
      var k := DecodeAt(raw, pos);
      if k.Err? then Err(k.error)
      else
        var v := DecodeAt(raw, k.value.1);
        if v.Err? then Err(v.error)
        else if !Hashable(k.value.0) then Err(Unhashable)
        else DecodeEntries(raw, v.value.1, n - 1, Store(acc, k.value.0, v.value.0))
  }

  function Decode(raw: seq<Byte>): Result<Value, Error> {
    var r := DecodeAt(raw, 0);
    if r.Err? then Err(r.error)
    else if r.value.1 != |raw| then Err(Trailing)
    else Ok(r.value.0)
  }
}
