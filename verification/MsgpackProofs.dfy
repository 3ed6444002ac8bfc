/**
 What printing and parsing MessagePack promise each other.
 */
module MsgpackProofs {
  import opened Base
  import opened Bytes
  import opened Msgpack

  // ---------------------------------------------------------- which values are meant

  /** A value Python can build: a dictionary's keys are of hashable types (a tuple of
      hashables is one, a list never) and pairwise different. */
  ghost predicate Constructible(v: Value)
    decreases v, 0
  {
    match v
    case List(items) => forall i :: 0 <= i < |items| ==> Constructible(items[i])
    case Tuple(items) => forall i :: 0 <= i < |items| ==> Constructible(items[i])
    case Map(entries) => ConstructibleEntries(entries) && DistinctKeys(entries)
    case _ => true
  }

  ghost predicate ConstructibleEntries(entries: seq<Entry>)
    decreases entries, 0
  {
    forall i :: 0 <= i < |entries| ==> ConstructibleEntry(entries[i])
  }

  ghost predicate ConstructibleEntry(e: Entry)
    decreases e, 0
  {
    HashableKey(e.key) && Constructible(e.value)
  }

  ghost predicate HashableKey(key: Value) {
    match key
    case List(_) => false
    case Tuple(items) => forall i :: 0 <= i < |items| ==> HashableKey(items[i])
    case Map(_) => false
    case _ => true
  }

  ghost predicate DistinctKeys(entries: seq<Entry>) {
    forall i, j :: 0 <= i < j < |entries| ==> !SameKey(entries[i].key, entries[j].key)
  }

  /** No dictionary anywhere in the value has a tuple for a key. */
  predicate NoTupleKeys(v: Value)
    decreases v, 0
  {
    match v
    case List(items) => forall i :: 0 <= i < |items| ==> NoTupleKeys(items[i])
    case Tuple(items) => forall i :: 0 <= i < |items| ==> NoTupleKeys(items[i])
    case Map(entries) => forall i :: 0 <= i < |entries| ==> NoTupleKey(entries[i])
    case _ => true
  }

  predicate NoTupleKey(e: Entry)
    decreases e, 0
  {
    !e.key.Tuple? && NoTupleKeys(e.value)
  }

  /** No tuple occurs anywhere in the value. */
  predicate TupleFree(v: Value)
    decreases v, 0
  {
    match v
    case List(items) => forall i :: 0 <= i < |items| ==> TupleFree(items[i])
    case Tuple(_) => false
    case Map(entries) => forall i :: 0 <= i < |entries| ==> TupleFreeEntry(entries[i])
    case _ => true
  }

  predicate TupleFreeEntry(e: Entry)
    decreases e, 0
  {
    TupleFree(e.key) && TupleFree(e.value)
  }

  /** The value with a list for every tuple. */
  function Listed(v: Value): Value
    decreases v, 0
  {
    match v
    case List(items) => List(ListedItems(items))
    case Tuple(items) => List(ListedItems(items))
    case Map(entries) => Map(ListedEntries(entries))
    case _ => v
  }

  function ListedItems(items: seq<Value>): (r: seq<Value>)
    ensures |r| == |items|
    decreases items, 1
  {
    if items == [] then [] else [Listed(items[0])] + ListedItems(items[1..])
  }

  function ListedEntries(entries: seq<Entry>): (r: seq<Entry>)
    ensures |r| == |entries|
    decreases entries, 1
  {
    if entries == [] then [] else [ListedEntry(entries[0])] + ListedEntries(entries[1..])
  }

  function ListedEntry(e: Entry): Entry
    decreases e, 1
  {
    Entry(Listed(e.key), Listed(e.value))
  }

  // --------------------------------------------------------- tuples print as lists

  /** A value and its list form print alike, or fail alike. */
  lemma {:induction false} ListedPrintsAlike(v: Value)
    ensures Encode(Listed(v)) == Encode(v)
    decreases v, 0
  {
    hide ListedItems, ListedEntries, EncodeItems, EncodeEntries;
    match v
    case List(items) => ListedItemsPrintAlike(items);
    case Tuple(items) => ListedItemsPrintAlike(items);
    case Map(entries) => ListedEntriesPrintAlike(entries);
    case _ =>
  }

  lemma {:induction false} ListedItemsPrintAlike(items: seq<Value>)
    ensures EncodeItems(ListedItems(items)) == EncodeItems(items)
    decreases items, 1
  {
    hide Encode, Listed;
    if items != [] {
      ListedPrintsAlike(items[0]);
      ListedItemsPrintAlike(items[1..]);
      assert ListedItems(items)[1..] == ListedItems(items[1..]);
    }
  }

  lemma {:induction false} ListedEntriesPrintAlike(entries: seq<Entry>)
    ensures EncodeEntries(ListedEntries(entries)) == EncodeEntries(entries)
    decreases entries, 1
  {
    hide EncodeEntry, ListedEntry;
    if entries != [] {
      ListedEntryPrintsAlike(entries[0]);
      ListedEntriesPrintAlike(entries[1..]);
      assert ListedEntries(entries)[1..] == ListedEntries(entries[1..]);
    }
  }

  lemma ListedEntryPrintsAlike(e: Entry)
    ensures EncodeEntry(ListedEntry(e)) == EncodeEntry(e)
    decreases e, 1
  {
    ListedPrintsAlike(e.key);
    ListedPrintsAlike(e.value);
  }

  /** Only a value that holds a tuple is changed by listing it. */
  lemma {:induction false} ListedIsSame(v: Value)
    ensures Listed(v) == v <==> TupleFree(v)
    decreases v, 0
  {
    hide ListedItems, ListedEntries, TupleFreeEntry;
    match v
    case List(items) => ListedItemsAreSame(items);
    case Tuple(_) =>
    case Map(entries) => ListedEntriesAreSame(entries);
    case _ =>
  }

  lemma {:induction false} ListedItemsAreSame(items: seq<Value>)
    ensures ListedItems(items) == items <==> forall i :: 0 <= i < |items| ==> TupleFree(items[i])
    decreases items, 1
  {
    hide Listed, TupleFree;
    if items != [] {
      ListedIsSame(items[0]);
      ListedItemsAreSame(items[1..]);
      assert items == [items[0]] + items[1..];
      assert ListedItems(items)[0] == Listed(items[0]) && ListedItems(items)[1..] == ListedItems(items[1..]);
    }
  }

  lemma {:induction false} ListedEntriesAreSame(entries: seq<Entry>)
    ensures ListedEntries(entries) == entries <==> forall i :: 0 <= i < |entries| ==> TupleFreeEntry(entries[i])
    decreases entries, 1
  {
    hide ListedEntry, TupleFreeEntry;
    if entries != [] {
      ListedEntryIsSame(entries[0]);
      ListedEntriesAreSame(entries[1..]);
      assert entries == [entries[0]] + entries[1..];
      assert ListedEntries(entries)[0] == ListedEntry(entries[0])
        && ListedEntries(entries)[1..] == ListedEntries(entries[1..]);
    }
  }

  lemma ListedEntryIsSame(e: Entry)
    ensures ListedEntry(e) == e <==> TupleFreeEntry(e)
    decreases e, 1
  {
    ListedIsSame(e.key);
    ListedIsSame(e.value);
  }

  // ------------------------------------------------------------------- integers

  lemma ReadsBack(n: nat, w: nat, raw: seq<Byte>, pos: nat)
    requires n < Pow256(w) && pos + w <= |raw| && raw[pos..pos + w] == BigEndian(n, w)
    ensures DecodeUnsigned(raw, pos, w) == Ok((n, pos + w))
  {
    UnsignedOfBigEndian(n, w);
  }

  // ------------------------------------------------------------ one head at a time

  /** `raw` holds `bs` at `pos`. */
  predicate Holds(raw: seq<Byte>, pos: nat, bs: seq<Byte>) {
    pos + |bs| <= |raw| && raw[pos..pos + |bs|] == bs
  }

  lemma HoldsParts(raw: seq<Byte>, pos: nat, a: seq<Byte>, b: seq<Byte>)
    requires Holds(raw, pos, a + b)
    ensures Holds(raw, pos, a) && Holds(raw, pos + |a|, b)
  {
    assert raw[pos..pos + |a + b|][..|a|] == a;
    assert raw[pos..pos + |a + b|][|a|..] == b;
  }

  lemma TagAt(raw: seq<Byte>, pos: nat, tag: Byte, rest: seq<Byte>)
    requires Holds(raw, pos, [tag] + rest)
    ensures pos < |raw| && raw[pos] == tag && Holds(raw, pos + 1, rest)
  {
    HoldsParts(raw, pos, [tag], rest);
    assert raw[pos..pos + 1][0] == tag;
  }

  lemma UnsignedHead(raw: seq<Byte>, pos: nat, tag: Byte, n: nat, w: nat)
    requires n < Pow256(w) && Holds(raw, pos, [tag] + BigEndian(n, w))
    ensures pos < |raw| && raw[pos] == tag && DecodeUnsigned(raw, pos + 1, w) == Ok((n, pos + 1 + w))
  {
    TagAt(raw, pos, tag, BigEndian(n, w));
    ReadsBack(n, w, raw, pos + 1);
  }

  lemma SignedHead(raw: seq<Byte>, pos: nat, tag: Byte, n: int, w: nat)
    requires w > 0 && 2 * n < 0 <= 2 * n + Pow256(w) && Holds(raw, pos, [tag] + BigEndian(n + Pow256(w), w))
    ensures pos < |raw| && raw[pos] == tag && DecodeSigned(raw, pos + 1, w) == Ok((Whole(Int(n)), pos + 1 + w))
  {
    hide Pow256, Unsigned, BigEndian, Holds;
    UnsignedHead(raw, pos, tag, n + Pow256(w), w);
    TagAt(raw, pos, tag, BigEndian(n + Pow256(w), w));
  }

  lemma IntHead(n: int, raw: seq<Byte>, pos: nat)
    requires EncodeInt(n).Ok? && Holds(raw, pos, EncodeInt(n).value)
    ensures DecodeHead(raw, pos) == Ok((Whole(Int(n)), pos + |EncodeInt(n).value|))
  {
    if n >= 0 { NaturalHead(n, raw, pos); } else { NegativeHead(n, raw, pos); }
    hide EncodeInt, DecodeHead;
  }

  lemma NaturalHead(n: nat, raw: seq<Byte>, pos: nat)
    requires EncodeInt(n).Ok? && Holds(raw, pos, EncodeInt(n).value)
    ensures DecodeHead(raw, pos) == Ok((Whole(Int(n)), pos + |EncodeInt(n).value|))
  {
    Powers();
    if n < 0x80 {
      assert EncodeInt(n).value == [n] + [];
      TagAt(raw, pos, n, []);
    } else if n <= 0xFF { UnsignedHead(raw, pos, 0xCC, n, 1);
    } else if n <= 0xFFFF { UnsignedHead(raw, pos, 0xCD, n, 2);
    } else if n <= 0xFFFF_FFFF { UnsignedHead(raw, pos, 0xCE, n, 4);
    } else { UnsignedHead(raw, pos, 0xCF, n, 8);
    }
    hide Pow256, Unsigned, BigEndian;
  }

  lemma NegativeHead(n: int, raw: seq<Byte>, pos: nat)
    requires n < 0 && EncodeInt(n).Ok? && Holds(raw, pos, EncodeInt(n).value)
    ensures DecodeHead(raw, pos) == Ok((Whole(Int(n)), pos + |EncodeInt(n).value|))
  {
    Powers();
    if -0x20 <= n {
      assert EncodeInt(n).value == [n + 0x100] + [];
      TagAt(raw, pos, n + 0x100, []);
    } else if -0x80 <= n { SignedHead(raw, pos, 0xD0, n, 1);
    } else if -0x8000 <= n { SignedHead(raw, pos, 0xD1, n, 2);
    } else if -0x8000_0000 <= n { SignedHead(raw, pos, 0xD2, n, 4);
    } else { SignedHead(raw, pos, 0xD3, n, 8);
    }
    hide Pow256, Unsigned, BigEndian, Signed;
  }

  /** The four length prefixes announce their length and end where they end. */
  lemma LengthHead(
    n: nat, head: seq<Byte>, fix: Byte, limit: nat, tag1: Byte, tag2: Byte, tag4: Byte, raw: seq<Byte>, pos: nat)
    returns (w: nat)
    requires fix + limit <= 256
    requires
      || (n < limit && head == [fix + n])
      || (n <= 0xFF && head == [tag1] + BigEndian(n, 1))
      || (n <= 0xFFFF && head == [tag2] + BigEndian(n, 2))
      || (n <= 0xFFFF_FFFF && head == [tag4] + BigEndian(n, 4))
    requires Holds(raw, pos, head)
    ensures pos < |raw| && raw[pos] == head[0] && |head| == 1 + w
    ensures w == 0 || DecodeUnsigned(raw, pos + 1, w) == Ok((n, pos + 1 + w))
  {
    Powers();
    w := |head| - 1;
    if w == 0 {
      assert head == [head[0]] + [];
      TagAt(raw, pos, head[0], []);
    } else {
      assert head == [head[0]] + BigEndian(n, w);
      UnsignedHead(raw, pos, head[0], n, w);
    }
  }

  /** The head of a value reads back as the head of that value. */
  function HeadOf(v: Value): Head {
    match v
    case List(items) => Items(|items|)
    case Tuple(items) => Items(|items|)
    case Map(entries) => Entries(|entries|)
    case _ => Whole(v)
  }

  lemma StrReadsBack(utf8: seq<Byte>, raw: seq<Byte>, pos: nat)
    requires EncodeHead(Str(utf8)).Ok? && Holds(raw, pos, EncodeHead(Str(utf8)).value)
    ensures DecodeHead(raw, pos) == Ok((Whole(Str(utf8)), pos + |EncodeHead(Str(utf8)).value|))
  {
    var head := StrHead(|utf8|).value;
    HoldsParts(raw, pos, head, utf8);
    var w := LengthHead(|utf8|, head, 0xA0, 32, 0xD9, 0xDA, 0xDB, raw, pos);
    assert TakeBytes(raw, pos + 1 + w, |utf8|) == Ok((utf8, pos + 1 + w + |utf8|));
  }

  lemma BinReadsBack(bytes: seq<Byte>, raw: seq<Byte>, pos: nat)
    requires EncodeHead(Bin(bytes)).Ok? && Holds(raw, pos, EncodeHead(Bin(bytes)).value)
    ensures DecodeHead(raw, pos) == Ok((Whole(Bin(bytes)), pos + |EncodeHead(Bin(bytes)).value|))
  {
    var head := BinHead(|bytes|).value;
    HoldsParts(raw, pos, head, bytes);
    var w := LengthHead(|bytes|, head, 0, 0, 0xC4, 0xC5, 0xC6, raw, pos);
    assert TakeBytes(raw, pos + 1 + w, |bytes|) == Ok((bytes, pos + 1 + w + |bytes|));
  }

  lemma ContainerReadsBack(v: Value, raw: seq<Byte>, pos: nat)
    requires (v.List? || v.Tuple? || v.Map?) && EncodeHead(v).Ok? && Holds(raw, pos, EncodeHead(v).value)
    ensures DecodeHead(raw, pos) == Ok((HeadOf(v), pos + |EncodeHead(v).value|))
  {
    var e := EncodeHead(v).value;
    if !v.Map? {
      var w := LengthHead(|v.items|, e, 0x90, 16, 0xDC, 0xDC, 0xDD, raw, pos);
    } else {
      var w := LengthHead(|v.entries|, e, 0x80, 16, 0xDE, 0xDE, 0xDF, raw, pos);
    }
  }

  lemma HeadReadsBack(v: Value, raw: seq<Byte>, pos: nat)
    requires EncodeHead(v).Ok? && Holds(raw, pos, EncodeHead(v).value)
    ensures DecodeHead(raw, pos) == Ok((HeadOf(v), pos + |EncodeHead(v).value|))
  {
    var e := EncodeHead(v).value;
    match v
    case Int(n) => IntHead(n, raw, pos);
    case Float(word) => TagAt(raw, pos, 0xCB, word);
    case Str(utf8) => StrReadsBack(utf8, raw, pos);
    case Bin(bytes) => BinReadsBack(bytes, raw, pos);
    case List(_) => ContainerReadsBack(v, raw, pos);
    case Tuple(_) => ContainerReadsBack(v, raw, pos);
    case Map(_) => ContainerReadsBack(v, raw, pos);
    case Nil => assert e == [e[0]] + []; TagAt(raw, pos, e[0], []);
    case Bool(_) => assert e == [e[0]] + []; TagAt(raw, pos, e[0], []);
  }

  // ------------------------------------------------------------------ round trip

  lemma {:induction false} KeysAreConstructible(key: Value)
    requires HashableKey(key)
    ensures Constructible(key) && NoTupleKeys(key)
  {
    if key.Tuple? {
      forall i | 0 <= i < |key.items| ensures Constructible(key.items[i]) && NoTupleKeys(key.items[i]) {
        KeysAreConstructible(key.items[i]);
      }
    }
  }

  /** Storing under a key that is not there yet appends. */
  lemma {:induction false} StoreFresh(d: seq<Entry>, key: Value, value: Value)
    requires forall i :: 0 <= i < |d| ==> !SameKey(d[i].key, key)
    ensures Store(d, key, value) == d + [Entry(key, value)]
  {
    if d != [] { StoreFresh(d[1..], key, value); }
  }

  /** What is read behind the head of an array, and of a dictionary. */
  lemma ArrayFollows(raw: seq<Byte>, pos: nat, p: nat, n: nat)
    requires DecodeHead(raw, pos) == Ok((Items(n), p))
    ensures p <= |raw|
    ensures DecodeAt(raw, pos) == var r := DecodeItems(raw, p, n, []);
              if r.Err? then Err(r.error) else Ok((List(r.value.0), r.value.1))
  {
    hide DecodeHead, DecodeItems;
  }

  lemma MapFollows(raw: seq<Byte>, pos: nat, p: nat, n: nat)
    requires DecodeHead(raw, pos) == Ok((Entries(n), p))
    ensures p <= |raw|
    ensures DecodeAt(raw, pos) == var r := DecodeEntries(raw, p, n, []);
              if r.Err? then Err(r.error) else Ok((Map(r.value.0), r.value.1))
  {
    hide DecodeHead, DecodeEntries;
  }

  lemma WholeFollows(raw: seq<Byte>, pos: nat, p: nat, v: Value)
    requires DecodeHead(raw, pos) == Ok((Whole(v), p))
    ensures DecodeAt(raw, pos) == Ok((v, p))
  {
    hide DecodeHead;
  }

  /** Wherever the encoding of a constructible value lies, parsing from there gives its list
      form and stops at its end, or raises when some dictionary has a tuple for a key. */
  lemma {:induction false} ReadsBackAt(v: Value, raw: seq<Byte>, pos: nat)
    requires Constructible(v) && Encode(v).Ok? && Holds(raw, pos, Encode(v).value)
    ensures ReadAs(DecodeAt(raw, pos), NoTupleKeys(v), Listed(v), pos + |Encode(v).value|)
    decreases v, 2
  {
    hide *;
    match v
    case List(_) => ArrayReadsBack(v, raw, pos);
    case Tuple(_) => ArrayReadsBack(v, raw, pos);
    case Map(_) => MapReadsBack(v, raw, pos);
    case _ =>
      WholeParts(v);
      HeadReadsBack(v, raw, pos);
      WholeFollows(raw, pos, pos + |EncodeHead(v).value|, v);
      ReadWhole(DecodeAt(raw, pos), v, pos + |EncodeHead(v).value|);
  }

  /** The result of a parse: this value, ending here, or some error. */
  predicate ReadAs<T(==)>(r: Parsed<T>, fits: bool, value: T, end: nat) {
    if fits then r == Ok((value, end)) else r.Err?
  }

  lemma ReadWhole(r: Parsed<Value>, v: Value, end: nat)
    requires r == Ok((v, end))
    ensures ReadAs(r, true, v, end)
  {
  }

  /** A value that is no container is all head. */
  lemma WholeParts(v: Value)
    requires !v.List? && !v.Tuple? && !v.Map?
    ensures Encode(v) == EncodeHead(v) && HeadOf(v) == Whole(v) && NoTupleKeys(v) && Listed(v) == v
  {
    hide EncodeHead;
  }

  lemma ArrayParts(v: Value)
    requires (v.List? || v.Tuple?) && Encode(v).Ok?
    ensures EncodeHead(v).Ok? && EncodeItems(v.items).Ok? && HeadOf(v) == Items(|v.items|)
    ensures Encode(v).value == EncodeHead(v).value + EncodeItems(v.items).value
    ensures Listed(v) == List(ListedItems(v.items))
  {
    hide EncodeHead, EncodeItems, ListedItems;
  }

  lemma MapParts(v: Value)
    requires v.Map? && Encode(v).Ok?
    ensures EncodeHead(v).Ok? && EncodeEntries(v.entries).Ok? && HeadOf(v) == Entries(|v.entries|)
    ensures Encode(v).value == EncodeHead(v).value + EncodeEntries(v.entries).value
    ensures Listed(v) == Map(ListedEntries(v.entries))
  {
    hide EncodeHead, EncodeEntries, ListedEntries;
  }

  lemma ArrayReadsBack(v: Value, raw: seq<Byte>, pos: nat)
    requires (v.List? || v.Tuple?) && Constructible(v) && Encode(v).Ok? && Holds(raw, pos, Encode(v).value)
    ensures ReadAs(DecodeAt(raw, pos), NoTupleKeys(v), Listed(v), pos + |Encode(v).value|)
    decreases v, 1
  {
    hide DecodeHead, EncodeHead, Encode, EncodeItems, DecodeItems, Holds, DecodeAt, HeadOf, Listed, ListedItems;
    ArrayParts(v);
    var head := EncodeHead(v).value;
    HoldsParts(raw, pos, head, EncodeItems(v.items).value);
    HeadReadsBack(v, raw, pos);
    ArrayFollows(raw, pos, pos + |head|, |v.items|);
    ItemsReadBack(v.items, raw, pos + |head|, []);
    assert [] + ListedItems(v.items) == ListedItems(v.items);
  }

  lemma MapReadsBack(v: Value, raw: seq<Byte>, pos: nat)
    requires v.Map? && Constructible(v) && Encode(v).Ok? && Holds(raw, pos, Encode(v).value)
    ensures ReadAs(DecodeAt(raw, pos), NoTupleKeys(v), Listed(v), pos + |Encode(v).value|)
    decreases v, 1
  {
    hide DecodeHead, EncodeHead, Encode, EncodeEntries, DecodeEntries, Holds, DecodeAt, HeadOf, NoTupleKey, Listed,
      ListedEntries, DistinctKeys, ConstructibleEntries;
    MapParts(v);
    var head := EncodeHead(v).value;
    HoldsParts(raw, pos, head, EncodeEntries(v.entries).value);
    HeadReadsBack(v, raw, pos);
    MapFollows(raw, pos, pos + |head|, |v.entries|);
    assert [] + v.entries == v.entries && [] + ListedEntries(v.entries) == ListedEntries(v.entries);
    EntriesReadBack(v.entries, raw, pos + |head|, []);
  }

  lemma {:induction false} ItemsReadBack(items: seq<Value>, raw: seq<Byte>, pos: nat, acc: seq<Value>)
    requires pos <= |raw|
    requires forall i :: 0 <= i < |items| ==> Constructible(items[i])
    requires EncodeItems(items).Ok? && Holds(raw, pos, EncodeItems(items).value)
    ensures ReadAs(DecodeItems(raw, pos, |items|, acc), forall i :: 0 <= i < |items| ==> NoTupleKeys(items[i]),
                   acc + ListedItems(items), pos + |EncodeItems(items).value|)
    decreases items, 1
  {
    hide DecodeAt, Encode, Constructible, NoTupleKeys, Listed, Holds;
    if items == [] {
      assert acc + ListedItems(items) == acc;
    } else {
      var first, l := Encode(items[0]).value, Listed(items[0]);
      HoldsParts(raw, pos, first, EncodeItems(items[1..]).value);
      ReadsBackAt(items[0], raw, pos);
      ItemsReadBack(items[1..], raw, pos + |first|, acc + [l]);
      assert acc + [l] + ListedItems(items[1..]) == acc + ListedItems(items);
      assert items == [items[0]] + items[1..];
    }
  }

  lemma {:induction false} EntriesReadBack(entries: seq<Entry>, raw: seq<Byte>, pos: nat, acc: seq<Entry>)
    requires pos <= |raw|
    requires ConstructibleEntries(entries) && DistinctKeys(acc + entries)
    requires EncodeEntries(entries).Ok? && Holds(raw, pos, EncodeEntries(entries).value)
    ensures ReadAs(DecodeEntries(raw, pos, |entries|, acc), forall i :: 0 <= i < |entries| ==> NoTupleKey(entries[i]),
                   acc + ListedEntries(entries), pos + |EncodeEntries(entries).value|)
    decreases entries, 1
  {
    hide SameKey, DecodeAt, EncodeEntry, ConstructibleEntry, NoTupleKeys, ListedEntry, DistinctKeys;
    if entries == [] {
      assert acc + ListedEntries(entries) == acc;
    } else {
      var e, rest := entries[0], entries[1..];
      var l := ListedEntry(e);
      HoldsParts(raw, pos, EncodeEntry(e).value, EncodeEntries(rest).value);
      EntryReadsBack(e, raw, pos);
      assert entries == [e] + rest;
      if NoTupleKey(e) {
        SameKeysAreDistinct(acc, e, rest);
        StoreFresh(acc, e.key, l.value);
        assert acc + [l] + ListedEntries(rest) == acc + ListedEntries(entries);
        EntriesReadBack(rest, raw, pos + |EncodeEntry(e).value|, acc + [l]);
      }
    }
  }

  /** The key of the next entry is new, and stays so with its value in list form. */
  lemma SameKeysAreDistinct(acc: seq<Entry>, e: Entry, rest: seq<Entry>)
    requires DistinctKeys(acc + ([e] + rest)) && !e.key.Tuple? && HashableKey(e.key)
    ensures ListedEntry(e) == Entry(e.key, Listed(e.value))
    ensures forall i :: 0 <= i < |acc| ==> !SameKey(acc[i].key, e.key)
    ensures DistinctKeys(acc + [ListedEntry(e)] + rest)
  {
    hide SameKey;
    var was, now := acc + ([e] + rest), acc + [ListedEntry(e)] + rest;
    assert Listed(e.key) == e.key;
    assert forall i :: 0 <= i < |now| ==> now[i].key == was[i].key;
    assert forall i :: 0 <= i < |acc| ==> was[i] == acc[i];
    assert was[|acc|] == e;
  }

  lemma EntryReadsBack(e: Entry, raw: seq<Byte>, pos: nat)
    requires ConstructibleEntry(e) && EncodeEntry(e).Ok? && Holds(raw, pos, EncodeEntry(e).value)
    ensures HashableKey(e.key)
    ensures var k := DecodeAt(raw, pos);
            && k.Ok? && k.value.0 == Listed(e.key) && k.value.1 <= |raw|
            && Hashable(k.value.0) == !e.key.Tuple?
            && ReadAs(DecodeAt(raw, k.value.1), NoTupleKeys(e.value), Listed(e.value), pos + |EncodeEntry(e).value|)
    ensures ListedEntry(e) == Entry(Listed(e.key), Listed(e.value))
    decreases e, 1
  {
    hide DecodeAt, Encode, Constructible, NoTupleKeys;
    var k := Encode(e.key).value;
    HoldsParts(raw, pos, k, Encode(e.value).value);
    KeysAreConstructible(e.key);
    ReadsBackAt(e.key, raw, pos);
    ReadsBackAt(e.value, raw, pos + |k|);
  }

  /** What is printed parses back to its list form exactly when no dictionary in it has a
      tuple for a key, and to itself exactly when there is no tuple in it at all; with a
      tuple for a key, parsing raises. */
  lemma DecodeUndoesEncode(v: Value)
    requires Constructible(v) && Encode(v).Ok?
    ensures Decode(Encode(v).value) == Ok(v) <==> TupleFree(v)
    ensures Decode(Encode(v).value) == Ok(Listed(v)) <==> NoTupleKeys(v)
    ensures Decode(Encode(v).value).Err? <==> !NoTupleKeys(v)
  {
    hide DecodeAt, Encode, Constructible, TupleFree, NoTupleKeys, Listed;
    ReadsBackAt(v, Encode(v).value, 0);
    ListedIsSame(v);
    FreeOfTupleKeys(v);
  }

  lemma {:induction false} FreeOfTupleKeys(v: Value)
    ensures TupleFree(v) ==> NoTupleKeys(v)
  {
    if v.List? && TupleFree(v) {
      forall i | 0 <= i < |v.items| ensures NoTupleKeys(v.items[i]) { FreeOfTupleKeys(v.items[i]); }
    }
    if v.Map? && TupleFree(v) {
      forall i | 0 <= i < |v.entries| ensures NoTupleKey(v.entries[i]) {
        var e := v.entries[i];
        assert TupleFreeEntry(e);
        assert TupleFree(e.key) ==> !e.key.Tuple?;
        FreeOfTupleKeys(v.entries[i].value);
      }
    }
  }

  /** The pair `(1, 2)` comes back as the list of the same. */
  lemma TupleComesBackListed()
    ensures var v := Tuple([Int(1), Int(2)]);
            Constructible(v) && Encode(v) == Ok([0x92, 1, 2])
            && Decode([0x92, 1, 2]) == Ok(List([Int(1), Int(2)])) != Ok(v)
  {
    var v := Tuple([Int(1), Int(2)]);
    OneItem(Int(2), 2);
    assert v.items[1..] == [Int(2)] && [1] + [2] == [1, 2] && [0x92] + [1, 2] == [0x92, 1, 2];
    assert Encode(v.items[0]) == Ok([1]);
    assert EncodeItems(v.items) == Ok([1, 2]);
    assert ListedItems(v.items) == [Int(1)] + ListedItems([Int(2)]) == [Int(1), Int(2)];
    DecodeUndoesEncode(v);
  }

  lemma OneItem(v: Value, n: Byte)
    requires v == Int(n) && n < 0x80
    ensures EncodeItems([v]) == Ok([n]) && ListedItems([v]) == [v]
  {
    assert [v][1..] == [] && [n] + [] == [n];
    assert Encode(v) == Ok([n]);
  }

  /** A dictionary with the key `(1,)` is printed and cannot be read. */
  lemma TupleKeyIsNotRead()
    ensures var v := Map([Entry(Tuple([Int(1)]), Nil)]);
            Constructible(v) && Encode(v) == Ok([0x81, 0x91, 1, 0xC0]) && Decode([0x81, 0x91, 1, 0xC0]).Err?
  {
    var e := Entry(Tuple([Int(1)]), Nil);
    var v := Map([e]);
    OneItem(Int(1), 1);
    assert [0x91] + [1] == [0x91, 1] && [0x91, 1] + [0xC0] == [0x91, 1, 0xC0]
      && [0x91, 1, 0xC0] + [] == [0x91, 1, 0xC0];
    assert Encode(e.key) == Ok([0x91, 1]) && Encode(e.value) == Ok([0xC0]);
    assert EncodeEntry(e) == Ok([0x91, 1, 0xC0]);
    assert [e][1..] == [] && [0x81] + [0x91, 1, 0xC0] == [0x81, 0x91, 1, 0xC0];
    assert EncodeEntries([e]) == Ok([0x91, 1, 0xC0]);
    assert ConstructibleEntry(v.entries[0]) && !NoTupleKey(v.entries[0]);
    DecodeUndoesEncode(v);
  }

  // ----------------------------------------------------- prefixes and trailing bytes

  /** Both hold the same bytes before `end`. */
  predicate Agree(a: seq<Byte>, b: seq<Byte>, end: nat) {
    end <= |a| && end <= |b| && a[..end] == b[..end]
  }

  lemma AgreeSlice(a: seq<Byte>, b: seq<Byte>, end: nat, i: nat, j: nat)
    requires Agree(a, b, end) && i <= j <= end
    ensures a[i..j] == b[i..j]
  {
    assert a[i..j] == a[..end][i..j] && b[i..j] == b[..end][i..j];
  }

  lemma UnsignedIsLocal(a: seq<Byte>, b: seq<Byte>, pos: nat, width: nat, end: nat)
    requires pos + width <= |a| && pos + width <= end && Agree(a, b, end)
    ensures DecodeUnsigned(b, pos, width) == DecodeUnsigned(a, pos, width)
  {
    AgreeSlice(a, b, end, pos, pos + width);
  }

  lemma TakeIsLocal(a: seq<Byte>, b: seq<Byte>, pos: nat, n: nat, end: nat)
    requires pos + n <= |a| && pos + n <= end && Agree(a, b, end)
    ensures TakeBytes(b, pos, n) == TakeBytes(a, pos, n)
  {
    AgreeSlice(a, b, end, pos, pos + n);
  }

  /** How many bytes after the tag hold a length or a fixed-size payload. */
  function FieldWidth(tag: Byte): nat {
    if tag in {0xC4, 0xCC, 0xD0, 0xD9} then 1
    else if tag in {0xC5, 0xCD, 0xD1, 0xDA, 0xDC, 0xDE} then 2
    else if tag in {0xC6, 0xCA, 0xCE, 0xD2, 0xDB, 0xDD, 0xDF} then 4
    else if tag in {0xCB, 0xCF, 0xD3} then 8
    else 0
  }

  lemma HeadIsLocal(a: seq<Byte>, b: seq<Byte>, pos: nat, end: nat)
    requires DecodeHead(a, pos).Ok? && DecodeHead(a, pos).value.1 <= end && Agree(a, b, end)
    ensures DecodeHead(b, pos) == DecodeHead(a, pos)
  {
    hide Unsigned, Signed, Widen, Pow256;
    assert a[pos] == a[..end][pos] && b[pos] == b[..end][pos];
    var tag, p, w := a[pos], pos + 1, FieldWidth(a[pos]);
    if 0xA0 <= tag <= 0xBF {
      TakeIsLocal(a, b, p, tag - 0xA0, end);
    } else if 0xC4 <= tag <= 0xC6 || 0xD9 <= tag <= 0xDB {
      UnsignedIsLocal(a, b, p, w, end);
      TakeIsLocal(a, b, p + w, DecodeUnsigned(a, p, w).value.0, end);
    } else if 0xCA <= tag <= 0xDF {
      AgreeSlice(a, b, end, p, p + w);
    }
  }

  /** A parse that succeeds depends on nothing behind where it stops. */
  lemma {:induction false} DecodeIsLocal(a: seq<Byte>, b: seq<Byte>, pos: nat, end: nat)
    requires DecodeAt(a, pos).Ok? && DecodeAt(a, pos).value.1 <= end && Agree(a, b, end)
    ensures DecodeAt(b, pos) == DecodeAt(a, pos)
    decreases |a| - pos, 0
  {
    hide DecodeHead;
    var h := DecodeHead(a, pos);
    match h.value.0
    case Whole(_) =>
      HeadIsLocal(a, b, pos, end);
    case Items(n) =>
      HeadIsLocal(a, b, pos, end);
      ItemsAreLocal(a, b, h.value.1, n, [], end);
    case Entries(n) =>
      HeadIsLocal(a, b, pos, end);
      EntriesAreLocal(a, b, h.value.1, n, [], end);
  }

  lemma {:induction false} ItemsAreLocal(a: seq<Byte>, b: seq<Byte>, pos: nat, n: nat, acc: seq<Value>, end: nat)
    requires pos <= |a| && pos <= |b| && Agree(a, b, end)
    requires DecodeItems(a, pos, n, acc).Ok? && DecodeItems(a, pos, n, acc).value.1 <= end
    ensures DecodeItems(b, pos, n, acc) == DecodeItems(a, pos, n, acc)
    decreases |a| - pos, 1
  {
    if n > 0 {
      var v := DecodeAt(a, pos).value;
      DecodeIsLocal(a, b, pos, end);
      ItemsAreLocal(a, b, v.1, n - 1, acc + [v.0], end);
    }
  }

  lemma {:induction false} EntriesAreLocal(a: seq<Byte>, b: seq<Byte>, pos: nat, n: nat, acc: seq<Entry>, end: nat)
    requires pos <= |a| && pos <= |b| && Agree(a, b, end)
    requires DecodeEntries(a, pos, n, acc).Ok? && DecodeEntries(a, pos, n, acc).value.1 <= end
    ensures DecodeEntries(b, pos, n, acc) == DecodeEntries(a, pos, n, acc)
    decreases |a| - pos, 1
  {
    if n > 0 {
      var k := DecodeAt(a, pos).value;
      DecodeIsLocal(a, b, pos, end);
      var v := DecodeAt(a, k.1).value;
      DecodeIsLocal(a, b, k.1, end);
      EntriesAreLocal(a, b, v.1, n - 1, Store(acc, k.0, v.0), end);
    }
  }

  /** Of the prefixes of any byte string, and of its extensions, at most one parses. */
  lemma ParseIsPrefixFree(raw: seq<Byte>, more: seq<Byte>)
    requires Decode(raw).Ok? && Decode(raw + more).Ok?
    ensures more == []
  {
    DecodeIsLocal(raw, raw + more, 0, |raw|);
  }

  /** Every strict prefix of an encoding is rejected, and so is every extension. */
  lemma OnlyTheWholeEncodingParses(v: Value, raw: seq<Byte>)
    requires Constructible(v) && Encode(v).Ok?
    requires raw < Encode(v).value || Encode(v).value < raw
    ensures Decode(raw).Err?
  {
    hide DecodeAt, Encode, Constructible, NoTupleKeys, Listed;
    var e := Encode(v).value;
    ReadsBackAt(v, e, 0);
    if raw < e {
      if DecodeAt(raw, 0).Ok? { DecodeIsLocal(raw, e, 0, DecodeAt(raw, 0).value.1); }
    } else if NoTupleKeys(v) {
      DecodeIsLocal(e, raw, 0, |e|);
    } else {
      ReadsBackAt(v, raw, 0);
    }
  }

  /** Two values printed at one place are the same but for tuples and lists. */
  lemma {:induction false} PrintedAlike(v: Value, w: Value, raw: seq<Byte>, pos: nat)
    requires Encode(v).Ok? && Holds(raw, pos, Encode(v).value)
    requires Encode(w).Ok? && Holds(raw, pos, Encode(w).value)
    ensures Listed(v) == Listed(w) && |Encode(v).value| == |Encode(w).value|
    decreases v, 2
  {
    hide DecodeHead, EncodeHead, Encode, EncodeItems, EncodeEntries, Holds, Listed, ListedItems, ListedEntries;
    var h := PrintedHead(v, raw, pos);
    var g := PrintedHead(w, raw, pos);
    match v
    case List(_) => ArrayParts(w); ItemsPrintedAlike(v.items, w.items, raw, pos + h);
    case Tuple(_) => ArrayParts(w); ItemsPrintedAlike(v.items, w.items, raw, pos + h);
    case Map(_) => MapParts(w); EntriesPrintedAlike(v.entries, w.entries, raw, pos + h);
    case _ => WholeParts(w);
  }

  /** The head of a printed value, how long it is, and that what follows it is there. */
  lemma PrintedHead(v: Value, raw: seq<Byte>, pos: nat) returns (h: nat)
    requires Encode(v).Ok? && Holds(raw, pos, Encode(v).value)
    ensures DecodeHead(raw, pos) == Ok((HeadOf(v), pos + h))
    ensures if v.List? || v.Tuple? then
              && EncodeItems(v.items).Ok? && Holds(raw, pos + h, EncodeItems(v.items).value)
              && |Encode(v).value| == h + |EncodeItems(v.items).value| && Listed(v) == List(ListedItems(v.items))
            else if v.Map? then
              && EncodeEntries(v.entries).Ok? && Holds(raw, pos + h, EncodeEntries(v.entries).value)
              && |Encode(v).value| == h + |EncodeEntries(v.entries).value| && Listed(v) == Map(ListedEntries(v.entries))
            else |Encode(v).value| == h && Listed(v) == v
  {
    hide DecodeHead, EncodeHead, Encode, EncodeItems, EncodeEntries, Holds, Listed, ListedItems, ListedEntries;
    if v.List? || v.Tuple? {
      ArrayParts(v);
      HoldsParts(raw, pos, EncodeHead(v).value, EncodeItems(v.items).value);
    } else if v.Map? {
      MapParts(v);
      HoldsParts(raw, pos, EncodeHead(v).value, EncodeEntries(v.entries).value);
    } else {
      WholeParts(v);
    }
    HeadReadsBack(v, raw, pos);
    h := |EncodeHead(v).value|;
  }

  lemma {:induction false} ItemsPrintedAlike(vs: seq<Value>, ws: seq<Value>, raw: seq<Byte>, pos: nat)
    requires |vs| == |ws|
    requires EncodeItems(vs).Ok? && Holds(raw, pos, EncodeItems(vs).value)
    requires EncodeItems(ws).Ok? && Holds(raw, pos, EncodeItems(ws).value)
    ensures ListedItems(vs) == ListedItems(ws) && |EncodeItems(vs).value| == |EncodeItems(ws).value|
    decreases vs, 1
  {
    hide Encode, Listed, Holds;
    if vs != [] {
      HoldsParts(raw, pos, Encode(vs[0]).value, EncodeItems(vs[1..]).value);
      HoldsParts(raw, pos, Encode(ws[0]).value, EncodeItems(ws[1..]).value);
      PrintedAlike(vs[0], ws[0], raw, pos);
      ItemsPrintedAlike(vs[1..], ws[1..], raw, pos + |Encode(vs[0]).value|);
    }
  }

  lemma {:induction false} EntriesPrintedAlike(vs: seq<Entry>, ws: seq<Entry>, raw: seq<Byte>, pos: nat)
    requires |vs| == |ws|
    requires EncodeEntries(vs).Ok? && Holds(raw, pos, EncodeEntries(vs).value)
    requires EncodeEntries(ws).Ok? && Holds(raw, pos, EncodeEntries(ws).value)
    ensures ListedEntries(vs) == ListedEntries(ws) && |EncodeEntries(vs).value| == |EncodeEntries(ws).value|
    decreases vs, 1
  {
    hide EncodeEntry, ListedEntry, Holds;
    if vs != [] {
      HoldsParts(raw, pos, EncodeEntry(vs[0]).value, EncodeEntries(vs[1..]).value);
      HoldsParts(raw, pos, EncodeEntry(ws[0]).value, EncodeEntries(ws[1..]).value);
      EntryPrintedAlike(vs[0], ws[0], raw, pos);
      EntriesPrintedAlike(vs[1..], ws[1..], raw, pos + |EncodeEntry(vs[0]).value|);
    }
  }

  lemma EntryPrintedAlike(v: Entry, w: Entry, raw: seq<Byte>, pos: nat)
    requires EncodeEntry(v).Ok? && Holds(raw, pos, EncodeEntry(v).value)
    requires EncodeEntry(w).Ok? && Holds(raw, pos, EncodeEntry(w).value)
    ensures ListedEntry(v) == ListedEntry(w) && |EncodeEntry(v).value| == |EncodeEntry(w).value|
    decreases v, 1
  {
    hide Encode, Listed, Holds;
    HoldsParts(raw, pos, Encode(v.key).value, Encode(v.value).value);
    HoldsParts(raw, pos, Encode(w.key).value, Encode(w.value).value);
    PrintedAlike(v.key, w.key, raw, pos);
    PrintedAlike(v.value, w.value, raw, pos + |Encode(v.key).value|);
  }

  /** Of any two printable values, one's encoding begins the other's exactly when they are
      the same but for tuples and lists; without tuples they are then the same value. */
  lemma EncodingsArePrefixFree(v: Value, w: Value)
    requires Encode(v).Ok? && Encode(w).Ok?
    ensures Encode(v).value <= Encode(w).value <==> Listed(v) == Listed(w)
    ensures TupleFree(v) && TupleFree(w) ==> (Encode(v).value <= Encode(w).value <==> v == w)
  {
    hide Encode, Listed, TupleFree;
    ListedPrintsAlike(v);
    ListedPrintsAlike(w);
    ListedIsSame(v);
    ListedIsSame(w);
    if Encode(v).value <= Encode(w).value {
      PrintedAlike(v, w, Encode(w).value, 0);
    }
  }

  // ------------------------------------------------------------- what can be printed

  /** Integers of 64 bits and lengths of 32, all the way down. */
  predicate Fits(v: Value)
    decreases v, 0
  {
    match v
    case Int(n) => -0x8000_0000_0000_0000 <= n < 0x1_0000_0000_0000_0000
    case Str(utf8) => |utf8| < 0x1_0000_0000
    case Bin(bytes) => |bytes| < 0x1_0000_0000
    case List(items) => |items| < 0x1_0000_0000 && forall i :: 0 <= i < |items| ==> Fits(items[i])
    case Tuple(items) => |items| < 0x1_0000_0000 && forall i :: 0 <= i < |items| ==> Fits(items[i])
    case Map(entries) => |entries| < 0x1_0000_0000 && forall i :: 0 <= i < |entries| ==> FitsEntry(entries[i])
    case _ => true
  }

  predicate FitsEntry(e: Entry)
    decreases e, 0
  {
    Fits(e.key) && Fits(e.value)
  }

  /** Printing succeeds exactly on the values that fit. */
  lemma {:induction false} EncodesExactlyWhatFits(v: Value)
    ensures Encode(v).Ok? <==> Fits(v)
    decreases v, 0
  {
    match v
    case List(items) => ItemsFit(items);
    case Tuple(items) => ItemsFit(items);
    case Map(entries) => EntriesFit(entries);
    case _ =>
  }

  lemma {:induction false} ItemsFit(items: seq<Value>)
    ensures EncodeItems(items).Ok? <==> forall i :: 0 <= i < |items| ==> Fits(items[i])
    decreases items, 1
  {
    if items != [] {
      EncodesExactlyWhatFits(items[0]);
      ItemsFit(items[1..]);
      assert items == [items[0]] + items[1..];
    }
  }

  lemma {:induction false} EntriesFit(entries: seq<Entry>)
    ensures EncodeEntries(entries).Ok? <==> forall i :: 0 <= i < |entries| ==> FitsEntry(entries[i])
    decreases entries, 1
  {
    if entries != [] {
      EntryFits(entries[0]);
      EntriesFit(entries[1..]);
      assert entries == [entries[0]] + entries[1..];
    }
  }

  lemma EntryFits(e: Entry)
    ensures EncodeEntry(e).Ok? <==> FitsEntry(e)
    decreases e, 1
  {
    EncodesExactlyWhatFits(e.key);
    EncodesExactlyWhatFits(e.value);
  }

  // --------------------------------------------------------------- what can be read

  /** A value that can be built, printed and read back as it is. */
  ghost predicate Printable(v: Value) { Constructible(v) && TupleFree(v) && Fits(v) }

  /** Entries of such values under keys that differ. */
  ghost predicate PrintableEntries(entries: seq<Entry>) {
    && (forall i :: 0 <= i < |entries| ==>
          HashableKey(entries[i].key) && Printable(entries[i].key) && Printable(entries[i].value))
    && DistinctKeys(entries)
  }

  /** A field of 8 bytes at most reads an integer of 64 bits, and one of 4 a length of 32. */
  lemma FieldFits(bs: seq<Byte>)
    requires |bs| in {1, 2, 4, 8}
    ensures Unsigned(bs) < 0x1_0000_0000_0000_0000 && (|bs| <= 4 ==> Unsigned(bs) < 0x1_0000_0000)
    ensures -0x8000_0000_0000_0000 <= Signed(bs) < 0x8000_0000_0000_0000
  {
    Powers();
    UnsignedBound(bs);
    hide Unsigned, Pow256;
  }

  /** What a head says is within what can be printed. */
  lemma ReadHeadFits(raw: seq<Byte>, pos: nat)
    requires DecodeHead(raw, pos).Ok?
    ensures match DecodeHead(raw, pos).value.0
            case Whole(v) => Printable(v) && !v.List? && !v.Map?
            case Items(n) => n < 0x1_0000_0000
            case Entries(n) => n < 0x1_0000_0000
  {
    hide Unsigned, Signed, Widen, Pow256;
    var w := FieldWidth(raw[pos]);
    if w > 0 { FieldFits(raw[pos + 1..pos + 1 + w]); }
  }

  lemma {:induction false} StoreAvoids(d: seq<Entry>, key: Value, value: Value, other: Value)
    requires !SameKey(other, key) && forall i :: 0 <= i < |d| ==> !SameKey(other, d[i].key)
    ensures forall i :: 0 <= i < |Store(d, key, value)| ==> !SameKey(other, Store(d, key, value)[i].key)
  {
    hide SameKey;
    if d != [] { StoreAvoids(d[1..], key, value, other); }
  }

  /** Storing keeps keys apart and adds one entry at most. */
  lemma {:induction false} StoreKeeps(d: seq<Entry>, key: Value, value: Value)
    requires PrintableEntries(d) && HashableKey(key) && Printable(key) && Printable(value)
    ensures PrintableEntries(Store(d, key, value)) && |Store(d, key, value)| <= |d| + 1
  {
    hide SameKey, Printable, HashableKey;
    if d != [] && !SameKey(d[0].key, key) {
      StoreKeeps(d[1..], key, value);
      StoreAvoids(d[1..], key, value, d[0].key);
    }
  }

  /** What is read can be printed. */
  lemma {:induction false} ReadFits(raw: seq<Byte>, pos: nat)
    requires DecodeAt(raw, pos).Ok?
    ensures Printable(DecodeAt(raw, pos).value.0)
    decreases |raw| - pos, 0
  {
    hide DecodeHead, Printable;
    ReadHeadFits(raw, pos);
    var (h, p) := DecodeHead(raw, pos).value;
    match h
    case Whole(_) =>
    case Items(n) =>
      ItemsReadFit(raw, p, n, []);
      ListFits(DecodeItems(raw, p, n, []).value.0);
    case Entries(n) =>
      EntriesReadFit(raw, p, n, []);
      MapFits(DecodeEntries(raw, p, n, []).value.0);
  }

  lemma ListFits(items: seq<Value>)
    requires |items| < 0x1_0000_0000 && forall i :: 0 <= i < |items| ==> Printable(items[i])
    ensures Printable(List(items))
  {
  }

  lemma MapFits(entries: seq<Entry>)
    requires |entries| < 0x1_0000_0000 && PrintableEntries(entries)
    ensures Printable(Map(entries))
  {
    hide DistinctKeys;
    forall i | 0 <= i < |entries|
      ensures ConstructibleEntry(entries[i]) && TupleFreeEntry(entries[i]) && FitsEntry(entries[i])
    {
      assert Printable(entries[i].key) && Printable(entries[i].value);
    }
    assert ConstructibleEntries(entries) && DistinctKeys(entries);
    assert Constructible(Map(entries));
    assert TupleFree(Map(entries));
  }

  lemma {:induction false} ItemsReadFit(raw: seq<Byte>, pos: nat, n: nat, acc: seq<Value>)
    requires pos <= |raw| && DecodeItems(raw, pos, n, acc).Ok?
    requires forall i :: 0 <= i < |acc| ==> Printable(acc[i])
    ensures var items := DecodeItems(raw, pos, n, acc).value.0;
            |items| == |acc| + n && forall i :: 0 <= i < |items| ==> Printable(items[i])
    decreases |raw| - pos, 1
  {
    hide DecodeAt, Printable;
    if n > 0 {
      ReadFits(raw, pos);
      var (v, p) := DecodeAt(raw, pos).value;
      ItemsReadFit(raw, p, n - 1, acc + [v]);
    }
  }

  lemma {:induction false} EntriesReadFit(raw: seq<Byte>, pos: nat, n: nat, acc: seq<Entry>)
    requires pos <= |raw| && DecodeEntries(raw, pos, n, acc).Ok? && PrintableEntries(acc)
    ensures var entries := DecodeEntries(raw, pos, n, acc).value.0;
            |entries| <= |acc| + n && PrintableEntries(entries)
    decreases |raw| - pos, 1
  {
    hide DecodeAt, PrintableEntries, Store;
    if n > 0 {
      var (k, p) := DecodeAt(raw, pos).value;
      var (v, q) := DecodeAt(raw, p).value;
      ReadFits(raw, pos);
      ReadFits(raw, p);
      assert HashableKey(k);
      hide Printable;
      StoreKeeps(acc, k, v);
      EntriesReadFit(raw, q, n - 1, Store(acc, k, v));
    }
  }

  /** Whatever parses can be printed, and what is printed parses to it again. */
  lemma EncodeUndoesDecode(raw: seq<Byte>, v: Value)
    requires Decode(raw) == Ok(v)
    ensures Constructible(v) && TupleFree(v) && Encode(v).Ok? && Decode(Encode(v).value) == Ok(v)
  {
    hide DecodeAt, Encode, Constructible, TupleFree, Fits;
    ReadFits(raw, 0);
    EncodesExactlyWhatFits(v);
    DecodeUndoesEncode(v);
  }
}
