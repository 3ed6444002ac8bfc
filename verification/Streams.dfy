/**
 Consumers that cut records out of an accumulating buffer.

 A cutter looks at a buffer and finds its first whole record, or nothing yet.  What
 the event stream and the framed bridge share is one property of their cutters: a
 record found in a prefix stays the first record however the buffer grows.  From it
 follows everything here, for any cutter and any chunking.
 */
module Streams {
  import opened Base

  /** A record, and how much of the buffer it and its delimiters take up. */
  datatype Piece<T> = Piece(record: seq<T>, used: nat)

  type Cutter<!T> = seq<T> -> Option<Piece<T>>

  ghost predicate Stable<T(!new)>(cut: Cutter<T>) {
    && (forall buf :: cut(buf).Some? ==> 0 < cut(buf).value.used <= |buf|)
    && (forall buf, more :: cut(buf).Some? ==> cut(buf + more) == cut(buf))
  }

  /** The records in a buffer, in order. */
  ghost function Records<T(!new)>(cut: Cutter<T>, buf: seq<T>): seq<seq<T>>
    requires Stable(cut)
    decreases |buf|
  {
    match cut(buf)
    case None => []
    case Some(p) =>
      [p.record] + Records(cut, buf[p.used..])
  }

  /** What is left of a buffer behind its last whole record. */
  ghost function Tail<T(!new)>(cut: Cutter<T>, buf: seq<T>): (tail: seq<T>)
    requires Stable(cut)
    ensures cut(tail).None?
    decreases |buf|
  {
    match cut(buf)
    case None => buf
    case Some(p) =>
      Tail(cut, buf[p.used..])
  }

  ghost function Concat<T>(chunks: seq<seq<T>>): seq<T> {
    if chunks == [] then [] else Concat(chunks[..|chunks| - 1]) + chunks[|chunks| - 1]
  }

  lemma {:induction false} ConcatConcat<T>(a: seq<seq<T>>, b: seq<seq<T>>)
    ensures Concat(a + b) == Concat(a) + Concat(b)
  {
    if b == [] {
      assert a + b == a;
    } else {
      var last := |b| - 1;
      ConcatConcat(a, b[..last]);
      assert (a + b)[..|a + b| - 1] == a + b[..last];
      Assoc(Concat(a), Concat(b[..last]), b[last]);
    }
  }

  lemma ConcatOne<T>(chunk: seq<T>)
    ensures Concat([chunk]) == chunk
  {
    assert [chunk][..0] == [] && Concat<T>([]) == [];
  }

  lemma ConcatHead<T>(chunks: seq<seq<T>>)
    ensures Concat(chunks) == if chunks == [] then [] else chunks[0] + Concat(chunks[1..])
  {
    if chunks != [] {
      hide Concat;
      ConcatOne(chunks[0]);
      ConcatConcat([chunks[0]], chunks[1..]);
      assert chunks == [chunks[0]] + chunks[1..];
    }
  }

  /** Draining before more arrives delivers the records of the whole. */
  lemma {:induction false} DrainEarly<T(!new)>(cut: Cutter<T>, buf: seq<T>, more: seq<T>)
    requires Stable(cut)
    ensures Records(cut, buf + more) == Records(cut, buf) + Records(cut, Tail(cut, buf) + more)
    ensures Tail(cut, buf + more) == Tail(cut, Tail(cut, buf) + more)
    decreases |buf|
  {
    match cut(buf)
    case None =>
    case Some(p) =>
      var rest := buf[p.used..];
      FirstRecord(cut, buf, p);
      assert (buf + more)[p.used..] == rest + more;
      FirstRecord(cut, buf + more, p);
      DrainEarly(cut, rest, more);
      Assoc([p.record], Records(cut, rest), Records(cut, Tail(cut, rest) + more));
      hide Stable, Records, Tail;
  }

  lemma NoRecord<T(!new)>(cut: Cutter<T>, buf: seq<T>)
    requires Stable(cut) && cut(buf).None?
    ensures Records(cut, buf) == [] && Tail(cut, buf) == buf
  {
  }

  lemma FirstRecord<T(!new)>(cut: Cutter<T>, buf: seq<T>, p: Piece<T>)
    requires Stable(cut) && cut(buf) == Some(p)
    ensures 0 < p.used <= |buf|
    ensures Records(cut, buf) == [p.record] + Records(cut, buf[p.used..])
    ensures Tail(cut, buf) == Tail(cut, buf[p.used..])
  {
  }

  /** A drain that began with `start` in the buffer has come to `buf`, delivering `done`. */
  ghost predicate Draining<T(!new)>(cut: Cutter<T>, start: seq<T>, done: seq<seq<T>>, buf: seq<T>)
    requires Stable(cut)
  {
    Tail(cut, buf) == Tail(cut, start) && done + Records(cut, buf) == Records(cut, start)
  }

  lemma DrainBegins<T(!new)>(cut: Cutter<T>, start: seq<T>)
    requires Stable(cut)
    ensures Draining(cut, start, [], start)
  {
  }

  lemma DrainTakes<T(!new)>(cut: Cutter<T>, start: seq<T>, done: seq<seq<T>>, buf: seq<T>, p: Piece<T>)
    requires Stable(cut) && Draining(cut, start, done, buf) && cut(buf) == Some(p)
    ensures 0 < p.used <= |buf| && Draining(cut, start, done + [p.record], buf[p.used..])
  {
    FirstRecord(cut, buf, p);
    Assoc(done, [p.record], Records(cut, buf[p.used..]));
  }

  lemma DrainEnds<T(!new)>(cut: Cutter<T>, start: seq<T>, done: seq<seq<T>>, buf: seq<T>)
    requires Stable(cut) && Draining(cut, start, done, buf) && cut(buf).None?
    ensures done == Records(cut, start) && buf == Tail(cut, start)
  {
    assert done + [] == done;
  }

  /** What has been delivered after each of `chunks` was appended and drained. */
  ghost function Delivered<T(!new)>(cut: Cutter<T>, chunks: seq<seq<T>>): seq<seq<T>>
    requires Stable(cut)
  {
    if chunks == [] then []
    else
      var before := chunks[..|chunks| - 1];
      Delivered(cut, before) + Records(cut, Held(cut, before) + chunks[|chunks| - 1])
  }

  /** What is still held back then. */
  ghost function Held<T(!new)>(cut: Cutter<T>, chunks: seq<seq<T>>): seq<T>
    requires Stable(cut)
  {
    if chunks == [] then []
    else Tail(cut, Held(cut, chunks[..|chunks| - 1]) + chunks[|chunks| - 1])
  }

  /** However a stream is cut into chunks, what is delivered and what is held back are the
      records and the tail of the stream; nothing may hold before it starts. */
  lemma {:induction false} ChunkingIsInvisible<T(!new)>(cut: Cutter<T>, chunks: seq<seq<T>>)
    requires Stable(cut) && cut([]).None?
    ensures Delivered(cut, chunks) == Records(cut, Concat(chunks))
    ensures Held(cut, chunks) == Tail(cut, Concat(chunks))
  {
    if chunks != [] {
      var before := chunks[..|chunks| - 1];
      ChunkingIsInvisible(cut, before);
      DrainEarly(cut, Concat(before), chunks[|chunks| - 1]);
    }
  }

  /** Any two ways of cutting one stream deliver the same. */
  lemma SameStreamSameRecords<T(!new)>(cut: Cutter<T>, a: seq<seq<T>>, b: seq<seq<T>>)
    requires Stable(cut) && cut([]).None? && Concat(a) == Concat(b)
    ensures Delivered(cut, a) == Delivered(cut, b) && Held(cut, a) == Held(cut, b)
  {
    ChunkingIsInvisible(cut, a);
    ChunkingIsInvisible(cut, b);
  }
}
