/**
 The codec as the source runs it: every `Enc` method appends to one shared output
 buffer, every `Dec` method returns a value and the position behind it.
 */
module MsgpackCodec {
  import opened Base
  import opened Bytes
  import opened Msgpack

  /** The output a printing run appends to. */
  class Output {
    var bytes: seq<Byte>

    constructor ()
      ensures bytes == []
    {
      bytes := [];
    }

    /** Append what was printed, or say why it cannot be. */
    method Append(printed: Result<seq<Byte>, Error>) returns (raised: Option<Error>)
      modifies this
      ensures raised == if printed.Ok? then None else Some(printed.error)
      ensures bytes == old(bytes) + if printed.Ok? then printed.value else []
    {
      match printed
      case Ok(more) => bytes := bytes + more; raised := None;
      case Err(error) => raised := Some(error);
    }
  }

  /** What a printing method does to the buffer: append the whole encoding, or raise. */
  predicate Printed(before: seq<Byte>, after: seq<Byte>, raised: Option<Error>, printed: Result<seq<Byte>, Error>) {
    match printed
    case Ok(more) => raised == None && after == before + more
    case Err(error) => raised == Some(error)
  }

  lemma ThenAppends(done: seq<Byte>, a: Result<seq<Byte>, Error>, b: Result<seq<Byte>, Error>)
    ensures Then(Ok([]), b) == b
    ensures a.Ok? ==> Then(Ok(done), Then(a, b)) == Then(Ok(done + a.value), b)
    ensures a.Err? ==> Then(Ok(done), Then(a, b)) == a
  {
    if b.Ok? {
      assert [] + b.value == b.value;
      if a.Ok? { assert done + (a.value + b.value) == done + a.value + b.value; }
    }
  }

  lemma PrintedWhole(before: seq<Byte>, head: seq<Byte>, done: seq<Byte>)
    ensures Printed(before, before + head + done, None, Then(Ok(head), Ok(done)))
  {
    assert before + (head + done) == before + head + done;
  }

  method EncodeValue(v: Value) returns (r: Result<seq<Byte>, Error>)
    ensures r == Encode(v)
  {
    var out := new Output();
    var raised := Enc(v, out);
    assert raised.None? ==> out.bytes == [] + Encode(v).value == Encode(v).value;
    r := if raised.Some? then Err(raised.value) else Ok(out.bytes);
  }

  method Enc(v: Value, out: Output) returns (raised: Option<Error>)
    modifies out
    ensures Printed(old(out.bytes), out.bytes, raised, Encode(v))
    decreases v, 1
  {
    match v
    case List(_) => raised := EncArray(v, out);
    case Tuple(_) => raised := EncArray(v, out);
    case Map(entries) => raised := EncMap(v, out);
    case _ => raised := out.Append(EncodeHead(v));
  }

  /** The three steps of printing items one after another: none printed, one more, all. */
  lemma ItemsBegin(items: seq<Value>)
    ensures Then(Ok([]), EncodeItems(items[0..])) == EncodeItems(items)
  {
    assert items[0..] == items;
    ThenAppends([], Ok([]), EncodeItems(items));
  }

  lemma ItemsGo(items: seq<Value>, i: nat, done: seq<Byte>)
    requires i < |items|
    ensures var a, all := Encode(items[i]), Then(Ok(done), EncodeItems(items[i..]));
            all == if a.Err? then a else Then(Ok(done + a.value), EncodeItems(items[i + 1..]))
  {
    assert items[i..][1..] == items[i + 1..];
    ThenAppends(done, Encode(items[i]), EncodeItems(items[i + 1..]));
  }

  lemma ItemsEnd(items: seq<Value>, done: seq<Byte>)
    ensures Then(Ok(done), EncodeItems(items[|items|..])) == Ok(done)
  {
    assert done + [] == done;
  }

  method EncArray(v: Value, out: Output) returns (raised: Option<Error>)
    requires v.List? || v.Tuple?
    modifies out
    ensures Printed(old(out.bytes), out.bytes, raised, Encode(v))
    decreases v, 0
  {
    ghost var was := out.bytes;
    raised := out.Append(EncodeHead(v));
    if raised.Some? {
      return;
    }
    ghost var head, done := EncodeHead(v).value, [];
    assert Encode(v) == Then(EncodeHead(v), EncodeItems(v.items));
    ItemsBegin(v.items);
    hide Encode, EncodeHead, EncodeItems;
    for i := 0 to |v.items|
      invariant out.bytes == was + head + done
      invariant Then(Ok(done), EncodeItems(v.items[i..])) == EncodeItems(v.items)
    {
      ItemsGo(v.items, i, done);
      raised := Enc(v.items[i], out);
      if raised.Some? {
        return;
      }
      done := done + Encode(v.items[i]).value;
    }
    ItemsEnd(v.items, done);
    PrintedWhole(was, head, done);
    raised := None;
  }

  /** The three steps of printing entries one after another: none printed, one more, all. */
  lemma EntriesBegin(entries: seq<Entry>)
    ensures Then(Ok([]), EncodeEntries(entries[0..])) == EncodeEntries(entries)
  {
    assert entries[0..] == entries;
    ThenAppends([], Ok([]), EncodeEntries(entries));
  }

  lemma EntriesGo(entries: seq<Entry>, i: nat, done: seq<Byte>)
    requires i < |entries|
    ensures var a, all := EncodeEntry(entries[i]), Then(Ok(done), EncodeEntries(entries[i..]));
            all == if a.Err? then a else Then(Ok(done + a.value), EncodeEntries(entries[i + 1..]))
  {
    assert entries[i..][1..] == entries[i + 1..];
    ThenAppends(done, EncodeEntry(entries[i]), EncodeEntries(entries[i + 1..]));
  }

  lemma EntriesEnd(entries: seq<Entry>, done: seq<Byte>)
    ensures Then(Ok(done), EncodeEntries(entries[|entries|..])) == Ok(done)
  {
    assert done + [] == done;
  }

  method EncMap(v: Value, out: Output) returns (raised: Option<Error>)
    requires v.Map?
    modifies out
    ensures Printed(old(out.bytes), out.bytes, raised, Encode(v))
    decreases v, 0
  {
    ghost var was := out.bytes;
    raised := out.Append(EncodeHead(v));
    if raised.Some? {
      return;
    }
    ghost var head, done := EncodeHead(v).value, [];
    assert Encode(v) == Then(EncodeHead(v), EncodeEntries(v.entries));
    EntriesBegin(v.entries);
    hide Encode, EncodeHead, EncodeEntries, EncodeEntry;
    for i := 0 to |v.entries|
      invariant out.bytes == was + head + done
      invariant Then(Ok(done), EncodeEntries(v.entries[i..])) == EncodeEntries(v.entries)
    {
      EntriesGo(v.entries, i, done);
      raised := EncEntry(v.entries[i], out);
      if raised.Some? {
        return;
      }
      done := done + EncodeEntry(v.entries[i]).value;
    }
    EntriesEnd(v.entries, done);
    PrintedWhole(was, head, done);
    raised := None;
  }

  method EncEntry(e: Entry, out: Output) returns (raised: Option<Error>)
    modifies out
    ensures Printed(old(out.bytes), out.bytes, raised, EncodeEntry(e))
    decreases e, 0
  {
    raised := Enc(e.key, out);
    if raised.None? {
      raised := Enc(e.value, out);
    }
  }

  method DecodeValue(raw: seq<Byte>) returns (r: Result<Value, Error>)
    ensures r == Decode(raw)
  {
    var parsed := Dec(raw, 0);
    match parsed
    case Err(error) => r := Err(error);
    case Ok((value, pos)) => r := if pos != |raw| then Err(Trailing) else Ok(value);
  }

  method Dec(raw: seq<Byte>, pos: nat) returns (r: Parsed<Value>)
    ensures r == DecodeAt(raw, pos)
    decreases |raw| - pos, 0
  {
    var head := DecodeHead(raw, pos);
    match head
    case Err(error) => r := Err(error);
    case Ok((Whole(value), p)) => r := Ok((value, p));
    case Ok((Items(n), p)) =>
      var items := DecArray(raw, p, n);
      r := if items.Err? then Err(items.error) else Ok((List(items.value.0), items.value.1));
    case Ok((Entries(n), p)) =>
      var entries := DecMap(raw, p, n);
      r := if entries.Err? then Err(entries.error) else Ok((Map(entries.value.0), entries.value.1));
  }

  method DecArray(raw: seq<Byte>, pos: nat, n: nat) returns (r: Parsed<seq<Value>>)
    requires pos <= |raw|
    ensures r == DecodeItems(raw, pos, n, [])
    decreases |raw| - pos, 1
  {
    var items, p := [], pos;
    for i := 0 to n
      invariant pos <= p <= |raw|
      invariant DecodeItems(raw, p, n - i, items) == DecodeItems(raw, pos, n, [])
    {
      var value := Dec(raw, p);
      if value.Err? {
        return Err(value.error);
      }
      items, p := items + [value.value.0], value.value.1;
    }
    r := Ok((items, p));
  }

  method DecMap(raw: seq<Byte>, pos: nat, n: nat) returns (r: Parsed<seq<Entry>>)
    requires pos <= |raw|
    ensures r == DecodeEntries(raw, pos, n, [])
    decreases |raw| - pos, 1
  {
    var entries, p := [], pos;
    for i := 0 to n
      invariant pos <= p <= |raw|
      invariant DecodeEntries(raw, p, n - i, entries) == DecodeEntries(raw, pos, n, [])
    {
      var key := Dec(raw, p);
      if key.Err? {
        return Err(key.error);
      }
      var value := Dec(raw, key.value.1);
      if value.Err? {
        return Err(value.error);
      }
      if !Hashable(key.value.0) {
        return Err(Unhashable);
      }
      entries, p := Store(entries, key.value.0, value.value.0), value.value.1;
    }
    r := Ok((entries, p));
  }
}
