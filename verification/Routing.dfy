/**
 The routing of one request: the daemon everything in it names, and the path forwarded
 to that daemon, or the reason there is none.

 What routes a request are its qualified segments, each a daemon's key and a number, the
 `daemon` parameter of its query, and the roster as it stands; `unquote` is how a query
 value is decoded.
 */
module Routing {
  import opened Base
  import opened Strings
  import Roster

  type View = v: seq<Roster.DaemonRef> | |v| > 0 witness [Roster.DaemonRef("local", "", "", true, Roster.Env)]

  // ---------------------------------------------------------------- splitting text

  ghost predicate Plain(parts: seq<string>, sep: char) {
    forall i :: 0 <= i < |parts| ==> parts[i] != "" && sep !in parts[i]
  }

  function NonEmpty(parts: seq<string>): (r: seq<string>)
    ensures forall i :: 0 <= i < |r| ==> r[i] != ""
  {
    if parts == [] then [] else (if parts[0] == "" then [] else [parts[0]]) + NonEmpty(parts[1..])
  }

  lemma JoinHead(parts: seq<string>, sep: char)
    requires parts != []
    ensures var s, n := Join(parts, sep), |parts[0]|;
            && n <= |s| && s[..n] == parts[0]
            && if |parts| == 1 then s == parts[0]
               else n < |s| && s[n] == sep && s[n + 1..] == Join(parts[1..], sep)
  {
  }

  lemma {:induction false} SplitUndoesJoin(parts: seq<string>, sep: char)
    requires parts != [] && Plain(parts, sep)
    ensures Split(Join(parts, sep), sep) == parts && NonEmpty(parts) == parts
  {
    hide Join, Until;
    var s := Join(parts, sep);
    JoinHead(parts, sep);
    UntilIs(s, sep, |parts[0]|);
    if |parts| > 1 {
      SplitUndoesJoin(parts[1..], sep);
      assert parts == [parts[0]] + parts[1..];
    } else {
      assert parts == [parts[0]];
    }
  }

  // ------------------------------------------------------------------- qualified ids

  datatype Qid = NotQid | Qid(key: string, n: string)

  function Qualified(key: string, n: string): string { key + ":" + n }

  /** The key and the bare id of a segment of that shape. */
  function ParseQid(s: string): (q: Qid)
    ensures q.Qid? ==> s == Qualified(q.key, q.n) && Roster.IdSafe(q.key) && Digits(q.n)
  {
    var c := Until(s, ':');
    if c < |s| && Roster.IdSafe(s[..c]) && Digits(s[c + 1..]) then
      assert s == s[..c] + ":" + s[c + 1..];
      Qid(s[..c], s[c + 1..])
    else NotQid
  }

  lemma QualifiedParses(key: string, n: string)
    requires Roster.IdSafe(key) && Digits(n)
    ensures ParseQid(Qualified(key, n)) == Qid(key, n)
  {
    var s := Qualified(key, n);
    assert s[..|key|] == key && s[|key| + 1..] == n;
    assert ':' !in key by { assert !Roster.KeyChar(':'); }
    UntilIs(s, ':', |key|);
  }

  function Bare(s: string): string { if ParseQid(s).Qid? then ParseQid(s).n else s }

  function BareAll(segs: seq<string>): (r: seq<string>)
    ensures |r| == |segs| && forall i :: 0 <= i < |r| ==> r[i] == Bare(segs[i])
  {
    seq(|segs|, i requires 0 <= i < |segs| => Bare(segs[i]))
  }

  // -------------------------------------------------------------------- the routing

  datatype Routed = Routed(daemon: Roster.DaemonRef, path: string)

  datatype Refused = UnknownDaemon(key: string) | MixedDaemons(a: string, b: string)
                   | Disagrees(asked: string, named: string) | BareId(seg: string)

  function RawPath(path: string): string { path[..Until(path, '?')] }

  function Query(path: string): string {
    var q := Until(path, '?');
    if q == |path| then "" else path[q + 1..]
  }

  /** What follows `/api`, whose four characters are dropped unread. */
  function Segments(path: string): seq<string> {
    var raw := RawPath(path);
    NonEmpty(Split(if |raw| <= 4 then "/" else raw[4..], '/'))
  }

  function Params(path: string): seq<string> { NonEmpty(Split(Query(path), '&')) }

  function ParamKey(p: string): string { p[..Until(p, '=')] }

  function ParamValue(p: string): string {
    var e := Until(p, '=');
    if e == |p| then "" else p[e + 1..]
  }

  /** The last `daemon` parameter's value. */
  function Asked(params: seq<string>, unquote: string -> string): Option<string> {
    if params == [] then None
    else
      var last := params[|params| - 1];
      if ParamKey(last) == "daemon" then Some(unquote(ParamValue(last))) else Asked(params[..|params| - 1], unquote)
  }

  /** The parameters passed on. */
  function Kept(params: seq<string>): seq<string> {
    if params == [] then []
    else
      var last := params[|params| - 1];
      Kept(params[..|params| - 1]) + if ParamKey(last) == "daemon" then [] else [last]
  }

  function Forwarded(segs: seq<string>, kept: seq<string>): string {
    (if segs == [] then "/v1" else "/v1/" + Join(segs, '/')) + if kept == [] then "" else "?" + Join(kept, '&')
  }

  /** Something in the request, a segment or the parameter, names this key. */
  predicate Names(segs: seq<string>, asked: Option<string>, key: string) {
    asked == Some(key) || exists i :: 0 <= i < |segs| && ParseQid(segs[i]).Qid? && ParseQid(segs[i]).key == key
  }

  predicate InView(v: View, key: string) { exists i :: 0 <= i < |v| && v[i].key == key }

  /** A request can be routed to `d`: everything it names is `d`; or it names nothing, `d` is
      the primary, and there is no bare id that could mean another daemon. */
  ghost predicate RoutesTo(v: View, segs: seq<string>, asked: Option<string>, d: Roster.DaemonRef) {
    && d in v
    && (forall key :: Names(segs, asked, key) ==> key == d.key)
    && ((forall key :: !Names(segs, asked, key)) ==>
          d == v[0] && (|v| > 1 ==> forall i :: 0 <= i < |segs| ==> !Digits(segs[i])))
  }

  /** Segment `i` is qualified with this key. */
  predicate NamesAt(segs: seq<string>, i: nat, key: string) {
    i < |segs| && ParseQid(segs[i]).Qid? && ParseQid(segs[i]).key == key
  }

  /** The qualified ones among the first `n` segments name one daemon, which is in view. */
  ghost predicate AgreeTo(v: View, segs: seq<string>, n: nat) {
    && (forall i: nat, key :: i < n && NamesAt(segs, i, key) ==> InView(v, key))
    && (forall i: nat, j: nat, a, b :: i < n && j < n && NamesAt(segs, i, a) && NamesAt(segs, j, b) ==> a == b)
  }

  /** The segments alone are refused: the first that does not agree with those before it names
      no daemon in view, or another one. */
  ghost predicate RefusedAt(v: View, segs: seq<string>, i: nat, e: Refused) {
    AgreeTo(v, segs, i) &&
    match e
    case UnknownDaemon(key) => NamesAt(segs, i, key) && !InView(v, key)
    case MixedDaemons(a, b) =>
      NamesAt(segs, i, b) && InView(v, b) && a != b && exists j: nat :: j < i && NamesAt(segs, j, a)
    case _ => false
  }

  /** Why a request is refused.  Segments are looked at before the parameter, and the
      parameter before bare ids. */
  ghost predicate Refuses(v: View, segs: seq<string>, asked: Option<string>, e: Refused) {
    || (exists i: nat :: RefusedAt(v, segs, i, e))
    || (AgreeTo(v, segs, |segs|) &&
        match e
        case UnknownDaemon(key) => asked == Some(key) && !InView(v, key)
        case MixedDaemons(_, _) => false
        case Disagrees(a, b) => asked == Some(a) && InView(v, a) && a != b && exists j: nat :: NamesAt(segs, j, b)
        case BareId(seg) =>
          && asked == None && |v| > 1 && (forall key :: !Names(segs, asked, key))
          && exists i: nat :: FirstBare(segs, i) && segs[i] == seg)
  }

  /** Segment `i` is the first bare id. */
  predicate FirstBare(segs: seq<string>, i: nat) {
    i < |segs| && Digits(segs[i]) && forall k :: 0 <= k < i ==> !Digits(segs[k])
  }

  lemma NamesSomewhere(segs: seq<string>, key: string)
    ensures Names(segs, None, key) <==> exists i: nat :: NamesAt(segs, i, key)
  {
    hide ParseQid;
    if Names(segs, None, key) {
      var i :| 0 <= i < |segs| && ParseQid(segs[i]).Qid? && ParseQid(segs[i]).key == key;
      assert NamesAt(segs, i, key);
    }
  }

  /** There is at most one reason to refuse a request. */
  lemma RefusalIsOne(v: View, segs: seq<string>, asked: Option<string>, e: Refused, f: Refused)
    requires Refuses(v, segs, asked, e) && Refuses(v, segs, asked, f)
    ensures e == f
  {
    hide ParseQid, Digits, InView;
  }

  function Find(v: seq<Roster.DaemonRef>, key: string): Option<Roster.DaemonRef> {
    if v == [] then None else if v[0].key == key then Some(v[0]) else Find(v[1..], key)
  }

  lemma {:induction false} FindFinds(v: seq<Roster.DaemonRef>, key: string)
    ensures Find(v, key).None? ==> forall d :: d in v ==> d.key != key
    ensures Find(v, key).Some? ==> Find(v, key).value in v && Find(v, key).value.key == key
  {
    if v != [] && v[0].key != key {
      FindFinds(v[1..], key);
      assert v == [v[0]] + v[1..];
    }
  }

  /** The daemon the segments name, or why they cannot name one. */
  method PickBySegments(v: View, segs: seq<string>) returns (r: Result<Option<Roster.DaemonRef>, Refused>)
    ensures match r
            case Err(e) =>
              && (exists i: nat :: RefusedAt(v, segs, i, e))
              && forall d :: d in v ==> exists key :: Names(segs, None, key) && key != d.key
            case Ok(None) => forall key :: !Names(segs, None, key)
            case Ok(Some(d)) =>
              d in v && Names(segs, None, d.key) && forall key :: Names(segs, None, key) ==> key == d.key
    ensures r.Ok? ==> AgreeTo(v, segs, |segs|)
  {
    hide ParseQid;
    var picked: Option<Roster.DaemonRef> := None;
    for i := 0 to |segs|
      invariant picked.None? ==> forall k :: 0 <= k < i ==> ParseQid(segs[k]).NotQid?
      invariant AgreeTo(v, segs, i)
      invariant picked.Some? ==> picked.value in v && Names(segs, None, picked.value.key)
      invariant picked.Some? ==> exists j: nat :: j < i && NamesAt(segs, j, picked.value.key)
      invariant picked.Some? ==>
                  forall k :: 0 <= k < i && ParseQid(segs[k]).Qid? ==> ParseQid(segs[k]).key == picked.value.key
    {
      var q := ParseQid(segs[i]);
      if q.Qid? {
        assert Names(segs, None, q.key);
        var d := Find(v, q.key);
        FindFinds(v, q.key);
        assert NamesAt(segs, i, q.key);
        if d.None? {
          assert RefusedAt(v, segs, i, UnknownDaemon(q.key));
          return Err(UnknownDaemon(q.key));
        }
        if picked.Some? && picked.value.key != d.value.key {
          var j: nat :| j < i && NamesAt(segs, j, picked.value.key);
          assert RefusedAt(v, segs, i, MixedDaemons(picked.value.key, d.value.key));
          return Err(MixedDaemons(picked.value.key, d.value.key));
        }
        picked := d;
      }
    }
    r := Ok(picked);
  }

  /** The query read left to right: the last `daemon`, and everything else. */
  method ReadQuery(params: seq<string>, unquote: string -> string) returns (asked: Option<string>, kept: seq<string>)
    ensures asked == Asked(params, unquote) && kept == Kept(params)
  {
    asked, kept := None, [];
    for i := 0 to |params|
      invariant asked == Asked(params[..i], unquote) && kept == Kept(params[..i])
    {
      assert params[..i + 1][..i] == params[..i];
      if ParamKey(params[i]) == "daemon" {
        asked := Some(unquote(ParamValue(params[i])));
      } else {
        kept := kept + [params[i]];
      }
    }
    assert params[..|params|] == params;
  }

  /** The first bare id among the segments, or their number. */
  method FindBare(segs: seq<string>) returns (i: nat)
    ensures i <= |segs| && (i < |segs| ==> FirstBare(segs, i))
              && (i == |segs| ==> forall k :: 0 <= k < |segs| ==> !Digits(segs[k]))
  {
    i := 0;
    while i < |segs| && !Digits(segs[i])
      invariant i <= |segs| && forall k :: 0 <= k < i ==> !Digits(segs[k])
    {
      i := i + 1;
    }
  }

  /** The daemon a request means, or why it means none.  It succeeds exactly when some
      daemon is everything the request names. */
  method PickDaemon(v: View, segs: seq<string>, asked: Option<string>) returns (r: Result<Roster.DaemonRef, Refused>)
    ensures match r
            case Ok(d) => RoutesTo(v, segs, asked, d)
            case Err(e) => Refuses(v, segs, asked, e) && forall d :: !RoutesTo(v, segs, asked, d)
  {
    hide ParseQid, Digits;
    var bySegments := PickBySegments(v, segs);
    if bySegments.Err? {
      RefusalStands(v, segs, asked);
      return Err(bySegments.error);
    }
    var picked := bySegments.value;
    assert forall key :: Names(segs, asked, key) <==> asked == Some(key) || Names(segs, None, key);
    if asked.Some? {
      var d := Find(v, asked.value);
      FindFinds(v, asked.value);
      assert Names(segs, asked, asked.value);
      if d.None? {
        return Err(UnknownDaemon(asked.value));
      }
      if picked.Some? && picked.value.key != d.value.key {
        assert Names(segs, asked, picked.value.key);
        NamesSomewhere(segs, picked.value.key);
        assert InView(v, asked.value);
        return Err(Disagrees(d.value.key, picked.value.key));
      }
      picked := if picked.Some? then picked else d;
    } else if picked.None? {
      var bare := FindBare(segs);
      if |v| > 1 && bare < |segs| {
        assert FirstBare(segs, bare) && segs[bare] == BareId(segs[bare]).seg;
        return Err(BareId(segs[bare]));
      }
      picked := Some(v[0]);
    }
    r := Ok(picked.value);
  }

  /** Turn a browser path into a daemon and its own path, or refuse. */
  method ResolveApiPath(v: View, path: string, unquote: string -> string) returns (r: Result<Routed, Refused>)
    ensures var segs, asked := Segments(path), Asked(Params(path), unquote);
            match r
            case Ok(Routed(d, p)) => RoutesTo(v, segs, asked, d) && p == Forwarded(BareAll(segs), Kept(Params(path)))
            case Err(e) => Refuses(v, segs, asked, e) && forall d :: !RoutesTo(v, segs, asked, d)
  {
    hide Segments, Params, Asked, Kept, RoutesTo, Forwarded, BareAll, Refuses;
    var segs, params := Segments(path), Params(path);
    var asked, kept := ReadQuery(params, unquote);
    var picked := PickDaemon(v, segs, asked);
    match picked
    case Err(refused) => r := Err(refused);
    case Ok(d) => r := Ok(Routed(d, Forwarded(BareAll(segs), kept)));
  }

  lemma RefusalStands(v: View, segs: seq<string>, asked: Option<string>)
    requires forall d :: d in v ==> exists key :: Names(segs, None, key) && key != d.key
    ensures forall d :: !RoutesTo(v, segs, asked, d)
  {
    forall d | d in v ensures !RoutesTo(v, segs, asked, d) {
      var key :| Names(segs, None, key) && key != d.key;
      assert Names(segs, asked, key);
    }
  }

  // --------------------------------------------------------------------- round trip

  /** Qualify the marked segments of a path with a daemon's key. */
  function QualifySome(segs: seq<string>, marked: seq<bool>, key: string): (r: seq<string>)
    requires |marked| == |segs|
    ensures |r| == |segs|
  {
    seq(|segs|, i requires 0 <= i < |segs| => if marked[i] then Qualified(key, segs[i]) else segs[i])
  }

  function WithQuery(path: string, params: seq<string>): string {
    if params == [] then path else path + "?" + Join(params, '&')
  }

  /** The parameter that asks for a daemon, if any. */
  function Asking(value: Option<string>): seq<string> { if value.Some? then ["daemon=" + value.value] else [] }

  /** Naming a daemon on the roster, by qualifying ids of a path with its key, by a parameter
      or both, routes the path to that daemon and to no other; what is forwarded is the
      original path and the other parameters in their order. */
  lemma QualifyingRoutesBack(v: View, d: Roster.DaemonRef, segs: seq<string>, marked: seq<bool>,
                             before: seq<string>, value: Option<string>, after: seq<string>, unquote: string -> string)
    requires Roster.DistinctKeys(v) && d in v && Roster.IdSafe(d.key)
    requires segs != [] && |marked| == |segs| && Plain(segs, '/')
    requires value.Some? || exists i :: 0 <= i < |marked| && marked[i]
    requires forall i :: 0 <= i < |segs| ==>
               '?' !in segs[i] && if marked[i] then Digits(segs[i]) else ParseQid(segs[i]).NotQid?
    requires Plain(before + Asking(value) + after, '&') && (value.Some? ==> unquote(value.value) == d.key)
    requires forall p :: p in before + after ==> ParamKey(p) != "daemon"
    ensures var params := before + Asking(value) + after;
            var path := WithQuery("/api/" + Join(QualifySome(segs, marked, d.key), '/'), params);
            var s, asked := Segments(path), Asked(Params(path), unquote);
            && (forall e :: RoutesTo(v, s, asked, e) <==> e == d)
            && Forwarded(BareAll(s), Kept(Params(path))) == WithQuery("/v1/" + Join(segs, '/'), before + after)
  {
    hide Segments, Params, Asked, Kept, Join, ParseQid, Digits, ParamKey, Roster.IdSafe, Plain;
    var qs := QualifySome(segs, marked, d.key);
    QualifiedSegments(segs, marked, d.key);
    PathParts(qs, before + Asking(value) + after);
    AskedOnce(before, value, after, unquote);
    assert BareAll(qs) == segs;
    RoutesOnlyTo(v, d, qs, marked, if value.Some? then Some(d.key) else None);
  }

  /** A path that names no daemon at all is the primary's, as it stands; and no other's. */
  lemma UnnamedIsThePrimarys(v: View, segs: seq<string>, params: seq<string>, unquote: string -> string)
    requires Plain(segs, '/') && Plain(params, '&')
    requires forall i :: 0 <= i < |segs| ==> '?' !in segs[i] && ParseQid(segs[i]).NotQid?
    requires |v| > 1 ==> forall i :: 0 <= i < |segs| ==> !Digits(segs[i])
    requires forall p :: p in params ==> ParamKey(p) != "daemon"
    ensures var path := WithQuery(if segs == [] then "/api" else "/api/" + Join(segs, '/'), params);
            var s, asked := Segments(path), Asked(Params(path), unquote);
            && (forall e :: RoutesTo(v, s, asked, e) <==> e == v[0])
            && Forwarded(BareAll(s), Kept(Params(path)))
                 == WithQuery(if segs == [] then "/v1" else "/v1/" + Join(segs, '/'), params)
  {
    hide *;
    if segs == [] { BarePath(params); } else { PathParts(segs, params); }
    KeptAll([], params, unquote);
    assert [] + params == params;
    NothingKept(unquote);
    NothingBare(segs);
    NothingNamed(v, segs);
    ForwardedPath(segs, params);
  }

  lemma NothingBare(segs: seq<string>)
    requires forall i :: 0 <= i < |segs| ==> ParseQid(segs[i]).NotQid?
    ensures BareAll(segs) == segs
  {
    hide ParseQid;
  }

  lemma ForwardedPath(segs: seq<string>, params: seq<string>)
    ensures Forwarded(segs, params) == WithQuery(if segs == [] then "/v1" else "/v1/" + Join(segs, '/'), params)
  {
    hide Join;
    var p, q := if segs == [] then "/v1" else "/v1/" + Join(segs, '/'), Join(params, '&');
    assert p + "" == p && p + ("?" + q) == p + "?" + q;
  }

  lemma NothingNamed(v: View, segs: seq<string>)
    requires forall i :: 0 <= i < |segs| ==> ParseQid(segs[i]).NotQid?
    requires |v| > 1 ==> forall i :: 0 <= i < |segs| ==> !Digits(segs[i])
    ensures forall e :: RoutesTo(v, segs, None, e) <==> e == v[0]
  {
    hide ParseQid, Digits;
    assert forall key :: !Names(segs, None, key);
  }

  lemma NothingKept(unquote: string -> string)
    ensures Asked([], unquote) == None && Kept([]) == []
  {
  }

  lemma BarePath(params: seq<string>)
    requires Plain(params, '&')
    ensures var path := WithQuery("/api", params); Segments(path) == [] && Params(path) == params
  {
    hide Split, Join, NonEmpty, Plain, Query, Until;
    assert '?' !in "/api";
    QueryParts("/api", params);
    NoSegments();
  }

  lemma NoSegments()
    ensures NonEmpty(Split("/", '/')) == []
  {
    UntilIs("/", '/', 0);
    assert "/"[1..] == "";
    assert Split("", '/') == [""];
    assert Split("/", '/') == ["", ""];
  }

  /** Segments and a parameter that all name one daemon, some of them, route to it alone. */
  lemma RoutesOnlyTo(v: View, d: Roster.DaemonRef, qs: seq<string>, marked: seq<bool>, asked: Option<string>)
    requires Roster.DistinctKeys(v) && d in v && |marked| == |qs|
    requires asked == Some(d.key) || (asked == None && exists i :: 0 <= i < |marked| && marked[i])
    requires forall i :: 0 <= i < |qs| ==>
               (ParseQid(qs[i]).Qid? <==> marked[i]) && (marked[i] ==> ParseQid(qs[i]).key == d.key)
    ensures forall e :: RoutesTo(v, qs, asked, e) <==> e == d
  {
    hide ParseQid, Digits;
    if asked == None { var i :| 0 <= i < |marked| && marked[i]; }
    assert Names(qs, asked, d.key);
    forall e | e in v && e.key == d.key ensures e == d {
      var a, b :| 0 <= a < |v| && 0 <= b < |v| && v[a] == e && v[b] == d;
    }
  }

  lemma QualifiedSegments(segs: seq<string>, marked: seq<bool>, key: string)
    requires |marked| == |segs| && Plain(segs, '/') && Roster.IdSafe(key)
    requires forall i :: 0 <= i < |segs| ==>
               '?' !in segs[i] && if marked[i] then Digits(segs[i]) else ParseQid(segs[i]).NotQid?
    ensures var qs := QualifySome(segs, marked, key);
            && Plain(qs, '/') && (forall i :: 0 <= i < |qs| ==> '?' !in qs[i])
            && (forall i :: 0 <= i < |qs| ==> ParseQid(qs[i]) == if marked[i] then Qid(key, segs[i]) else NotQid)
  {
    var qs := QualifySome(segs, marked, key);
    assert !Roster.KeyChar('/') && !Roster.KeyChar('?');
    forall i | 0 <= i < |qs|
      ensures qs[i] != "" && '/' !in qs[i] && '?' !in qs[i]
      ensures ParseQid(qs[i]) == if marked[i] then Qid(key, segs[i]) else NotQid
    {
      if marked[i] { QualifiedParses(key, segs[i]); }
    }
  }

  lemma {:induction false} JoinAvoids(parts: seq<string>, sep: char, c: char)
    requires c != sep && forall i :: 0 <= i < |parts| ==> c !in parts[i]
    ensures c !in Join(parts, sep)
  {
    if |parts| > 1 { JoinAvoids(parts[1..], sep, c); }
  }

  /** A path assembled from segments and parameters comes apart into them. */
  lemma PathParts(segs: seq<string>, params: seq<string>)
    requires segs != [] && Plain(segs, '/') && (forall i :: 0 <= i < |segs| ==> '?' !in segs[i])
    requires Plain(params, '&')
    ensures var path := WithQuery("/api/" + Join(segs, '/'), params);
            Segments(path) == segs && Params(path) == params
  {
    var raw := "/api/" + Join(segs, '/');
    JoinAvoids(segs, '/', '?');
    SegmentsOfRaw(segs);
    hide Split, Join, NonEmpty, WithQuery, Query, Until, Plain;
    UnderApi(Join(segs, '/'));
    QueryParts(raw, params);
  }

  lemma UnderApi(s: string)
    requires '?' !in s
    ensures '?' !in "/api/" + s && ("/api/" + s)[4..] == "/" + s
  {
    assert '?' !in "/api/";
  }

  lemma QueryParts(raw: string, params: seq<string>)
    requires '?' !in raw && Plain(params, '&')
    ensures var path := WithQuery(raw, params); RawPath(path) == raw && Params(path) == params
  {
    hide Split, Join, NonEmpty;
    var path := WithQuery(raw, params);
    assert path[..|raw|] == raw;
    UntilIs(path, '?', |raw|);
    if params != [] {
      assert path[|raw| + 1..] == Join(params, '&');
      SplitUndoesJoin(params, '&');
    } else {
      SplitEmpty();
    }
  }

  lemma SplitEmpty()
    ensures NonEmpty(Split("", '&')) == []
  {
  }

  lemma SegmentsOfRaw(segs: seq<string>)
    requires segs != [] && Plain(segs, '/')
    ensures NonEmpty(Split("/" + Join(segs, '/'), '/')) == segs
  {
    var rest := "/" + Join(segs, '/');
    UntilIs(rest, '/', 0);
    assert rest[1..] == Join(segs, '/');
    SplitUndoesJoin(segs, '/');
    assert Split(rest, '/') == [""] + segs;
    assert ([""] + segs)[1..] == segs;
  }

  lemma {:induction false} KeptAll(a: seq<string>, b: seq<string>, unquote: string -> string)
    requires forall p :: p in b ==> ParamKey(p) != "daemon"
    ensures Asked(a + b, unquote) == Asked(a, unquote) && Kept(a + b) == Kept(a) + b
  {
    hide ParamKey, ParamValue;
    if b == [] {
      assert a + b == a;
    } else {
      var init := b[..|b| - 1];
      KeptAll(a, init, unquote);
      assert (a + b)[..|a + b| - 1] == a + init && b == init + [b[|b| - 1]];
      assert b[|b| - 1] in b;
    }
  }

  /** The last `daemon` parameter is the one that asks, and it is not passed on. */
  lemma LastAsks(before: seq<string>, value: string, after: seq<string>, unquote: string -> string)
    requires forall p :: p in after ==> ParamKey(p) != "daemon"
    ensures var params := before + ["daemon=" + value] + after;
            Asked(params, unquote) == Some(unquote(value)) && Kept(params) == Kept(before) + after
  {
    var p := "daemon=" + value;
    assert p[..6] == "daemon" && p[7..] == value;
    UntilIs(p, '=', 6);
    assert (before + [p])[..|before|] == before;
    KeptAll(before + [p], after, unquote);
  }

  lemma AskedOnce(before: seq<string>, value: Option<string>, after: seq<string>, unquote: string -> string)
    requires forall p :: p in before + after ==> ParamKey(p) != "daemon"
    ensures var params := before + Asking(value) + after;
            && Asked(params, unquote) == (if value.Some? then Some(unquote(value.value)) else None)
            && Kept(params) == before + after
  {
    hide ParamKey;
    assert (forall p :: p in before ==> p in before + after) && (forall p :: p in after ==> p in before + after);
    assert [] + before == before && before + [] == before;
    KeptAll([], before, unquote);
    if value.Some? { LastAsks(before, value.value, after, unquote); } else { KeptAll(before, after, unquote); }
  }
}
