/**
 The remembered view of each workspace: a table whose order is its recency, capped.
 */
module Views {

  const VIEWS_CAP: nat := 64

  datatype Entry = Entry(key: string, page: string)

  /** Some entry of `t` is for this key. */
  predicate Writes(t: seq<Entry>, key: string) {
    t != [] && (t[0].key == key || Writes(t[1..], key))
  }

  predicate DistinctKeys(t: seq<Entry>) {
    t == [] || (!Writes(t[1..], t[0].key) && DistinctKeys(t[1..]))
  }

  function Without(t: seq<Entry>, key: string): (r: seq<Entry>)
    ensures |r| <= |t|
  {
    if t == [] then [] else (if t[0].key == key then [] else [t[0]]) + Without(t[1..], key)
  }

  function Newest(t: seq<Entry>): seq<Entry> {
    if |t| > VIEWS_CAP then t[|t| - VIEWS_CAP..] else t
  }

  /** The table of the `[views]` section, oldest line first. */
  class Table {
    var entries: seq<Entry>

    constructor (entries: seq<Entry>)
      ensures this.entries == entries
    {
      this.entries := entries;
    }

    /** Write one key: take its line out, append it, and evict from the front. */
    method Save(key: string, page: string)
      modifies this
      ensures entries == Newest(Without(old(entries), key) + [Entry(key, page)])
    {
      entries := Without(entries, key);
      entries := entries + [Entry(key, page)];
      ghost var full := entries;
      while |entries| > VIEWS_CAP
        invariant |entries| <= |full| && entries == full[|full| - |entries|..]
        invariant |full| > VIEWS_CAP ==> |entries| >= VIEWS_CAP
        invariant |full| <= VIEWS_CAP ==> entries == full
        decreases |entries|
      {
        entries := entries[1..];
      }
    }
  }

  function Run(t: seq<Entry>, saves: seq<Entry>): seq<Entry> {
    if saves == [] then t
    else
      var last := saves[|saves| - 1];
      Newest(Without(Run(t, saves[..|saves| - 1]), last.key) + [last])
  }

  /** Of a list of writes, those that no later one overwrites, in order. */
  function LastWrites(writes: seq<Entry>): seq<Entry> {
    if writes == [] then []
    else (if Writes(writes[1..], writes[0].key) then [] else [writes[0]]) + LastWrites(writes[1..])
  }

  lemma {:induction false} WritesConcat(a: seq<Entry>, b: seq<Entry>, key: string)
    ensures Writes(a + b, key) <==> Writes(a, key) || Writes(b, key)
    ensures Without(a + b, key) == Without(a, key) + Without(b, key)
  {
    if a == [] {
      assert a + b == b;
    } else {
      assert (a + b)[1..] == a[1..] + b;
      WritesConcat(a[1..], b, key);
    }
  }

  /** Distinct keys, and exactly those written. */
  lemma {:induction false} LastWritesAre(writes: seq<Entry>, key: string)
    ensures DistinctKeys(LastWrites(writes)) && (Writes(LastWrites(writes), key) <==> Writes(writes, key))
  {
    if writes != [] {
      var w, rest := writes[0], writes[1..];
      LastWritesAre(rest, key);
      LastWritesAre(rest, w.key);
      assert ([w] + LastWrites(rest))[1..] == LastWrites(rest) && [] + LastWrites(rest) == LastWrites(rest);
    }
  }

  lemma {:induction false} WithoutAbsent(t: seq<Entry>, key: string)
    requires !Writes(t, key)
    ensures Without(t, key) == t
  {
    if t != [] { WithoutAbsent(t[1..], key); }
  }

  /** From a table of distinct keys at most one line goes. */
  lemma {:induction false} WithoutDrops(t: seq<Entry>, key: string)
    requires DistinctKeys(t)
    ensures |Without(t, key)| == if Writes(t, key) then |t| - 1 else |t|
  {
    if t != [] { WithoutDrops(t[1..], key); }
  }

  lemma {:induction false} DistinctParts(a: seq<Entry>, b: seq<Entry>, key: string)
    requires DistinctKeys(a + b)
    ensures DistinctKeys(b) && !(Writes(a, key) && Writes(b, key))
  {
    if a == [] {
      assert a + b == b;
    } else {
      assert (a + b)[1..] == a[1..] + b;
      WritesConcat(a[1..], b, a[0].key);
      DistinctParts(a[1..], b, key);
    }
  }

  /** One more write takes its key's earlier one out and comes last. */
  lemma {:induction false} LastWritesStep(writes: seq<Entry>, e: Entry)
    ensures LastWrites(writes + [e]) == Without(LastWrites(writes), e.key) + [e]
  {
    if writes == [] {
      assert writes + [e] == [e];
    } else {
      var w, rest := writes[0], writes[1..];
      assert (writes + [e])[1..] == rest + [e];
      LastWritesStep(rest, e);
      WritesConcat(rest, [e], w.key);
      assert Writes([e], w.key) <==> w.key == e.key;
      assert ([w] + LastWrites(rest))[1..] == LastWrites(rest);
      hide LastWrites, Writes;
      assert LastWrites(rest) == [] + LastWrites(rest);
    }
  }

  /** Keeping the newest and then writing keeps the newest of having written. */
  lemma NewestStep(t: seq<Entry>, e: Entry)
    requires DistinctKeys(t)
    ensures Newest(Without(Newest(t), e.key) + [e]) == Newest(Without(t, e.key) + [e])
  {
    hide Writes, DistinctKeys, Without;
    if |t| > VIEWS_CAP {
      var k := |t| - VIEWS_CAP;
      var gone, kept := t[..k], t[k..];
      assert t == gone + kept;
      DistinctParts(gone, kept, e.key);
      WritesConcat(gone, kept, e.key);
      WithoutDrops(kept, e.key);
      if Writes(kept, e.key) {
        WithoutAbsent(gone, e.key);
      } else {
        WithoutAbsent(kept, e.key);
      }
      NewestBehind(Without(gone, e.key), Without(kept, e.key), e);
    }
  }

  /** What is further from the end than the cap reaches does not matter. */
  lemma NewestBehind(a: seq<Entry>, b: seq<Entry>, e: Entry)
    requires |b| + 1 >= VIEWS_CAP
    ensures Newest(a + b + [e]) == Newest(b + [e])
  {
  }

  /** The table is a least-recently-written cache: after any save, on top of whatever was
      there, it holds the last `VIEWS_CAP` distinct keys by most recent write, oldest first,
      each with its latest page.  Before the first one a table over the cap stays over it. */
  lemma {:induction false} TableIsLastWrites(t: seq<Entry>, saves: seq<Entry>)
    requires DistinctKeys(t)
    ensures Run(t, saves) == if saves == [] then t else Newest(LastWrites(t + saves))
  {
    if saves != [] {
      var before, e := saves[..|saves| - 1], saves[|saves| - 1];
      if before == [] {
        assert t + before == t;
        DistinctWrites(t);
      } else {
        TableIsLastWrites(t, before);
      }
      assert t + saves == t + before + [e];
      LastWritesStep(t + before, e);
      LastWritesAre(t + before, e.key);
      NewestStep(LastWrites(t + before), e);
    }
  }

  lemma {:induction false} DistinctWrites(t: seq<Entry>)
    requires DistinctKeys(t)
    ensures LastWrites(t) == t
  {
    if t != [] { DistinctWrites(t[1..]); }
  }
}
