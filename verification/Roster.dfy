/**
 The daemons the bridge speaks for: how their keys are chosen, and what adding and
 removing may do to the list.
 */
module Roster {
  import opened Base
  import opened Strings

  datatype Source = Env | Runtime

  /** `name` is what the caller typed for a label, which defaults to the key. */
  datatype DaemonRef = DaemonRef(key: string, socket: string, name: string, primary: bool, source: Source)

  // ------------------------------------------------------------------------- keys

  predicate KeyChar(c: char) { 'A' <= c <= 'Z' || 'a' <= c <= 'z' || '0' <= c <= '9' || c in "._-" }

  /** A key that is safe in a path segment and before the colon of a qualified id. */
  predicate IdSafe(key: string) { key != "" && forall c :: c in key ==> KeyChar(c) }

  function Dashed(s: string): (r: string)
    ensures |r| == |s| && forall c :: c in r ==> KeyChar(c)
  {
    seq(|s|, i requires 0 <= i < |s| => if KeyChar(s[i]) then s[i] else '-')
  }

  function StripLeft(s: string): (r: string)
    ensures |r| <= |s| && r == s[|s| - |r|..] && (r != "" ==> r[0] != '-' && r[0] != '.')
  {
    if s != "" && (s[0] == '-' || s[0] == '.') then StripLeft(s[1..]) else s
  }

  function StripRight(s: string): (r: string)
    ensures r <= s && (r != "" ==> r[|r| - 1] != '-' && r[|r| - 1] != '.')
  {
    if s != "" && (s[|s| - 1] == '-' || s[|s| - 1] == '.') then StripRight(s[..|s| - 1]) else s
  }

  /** Outer blanks need no trimming of their own: they become dashes, and outer dashes go. */
  function SafeKey(name: string): (key: string)
    ensures IdSafe(key) && |key| <= 24
  {
    var k := StripRight(StripLeft(Dashed(name)));
    assert forall c :: c in k ==> c in Dashed(name);
    if k == "" then "daemon" else if |k| > 24 then k[..24] else k
  }

  /** What no key begins or ends with: a dash, a dot, or what becomes a dash. */
  predicate Outer(c: char) { !KeyChar(c) || c == '-' || c == '.' }

  lemma {:induction false} StripLeftIs(s: string, a: nat)
    requires a <= |s| && (forall i :: 0 <= i < a ==> s[i] == '-' || s[i] == '.')
    requires a < |s| ==> s[a] != '-' && s[a] != '.'
    ensures StripLeft(s) == s[a..]
  {
    if a > 0 {
      StripLeftIs(s[1..], a - 1);
      assert s[1..][a - 1..] == s[a..];
    }
  }

  lemma {:induction false} StripRightIs(s: string, b: nat)
    requires b <= |s| && (forall i :: b <= i < |s| ==> s[i] == '-' || s[i] == '.')
    requires b > 0 ==> s[b - 1] != '-' && s[b - 1] != '.'
    ensures StripRight(s) == s[..b]
  {
    if b < |s| {
      StripRightIs(s[..|s| - 1], b);
      assert s[..|s| - 1][..b] == s[..b];
    } else {
      assert s[..b] == s;
    }
  }

  /** The key of a name is the piece of it from the first character that can begin a key to
      the last that can end one, 24 at most, dashes for what no key holds. */
  lemma SafeKeyIs(name: string, a: nat, b: nat)
    requires a < b <= |name| && !Outer(name[a]) && !Outer(name[b - 1])
    requires forall i :: 0 <= i < |name| && (i < a || b <= i) ==> Outer(name[i])
    ensures var key := SafeKey(name);
            && |key| == (if b - a > 24 then 24 else b - a)
            && forall i :: 0 <= i < |key| ==> key[i] == if KeyChar(name[a + i]) then name[a + i] else '-'
    ensures a == 0 && b == |name| <= 24 && IdSafe(name) ==> SafeKey(name) == name
  {
    hide KeyChar, StripLeft, StripRight;
    var d := Dashed(name);
    DashedIs(name);
    StripLeftIs(d, a);
    StripRightIs(d[a..], b - a);
    assert d[a..][..b - a] == d[a..b];
    assert forall i :: 0 <= i < b - a ==> d[a..b][i] == d[a + i];
    assert IdSafe(name) ==> forall i :: 0 <= i < |name| ==> KeyChar(name[i]);
  }

  lemma DashedIs(name: string)
    ensures var d := Dashed(name);
            |d| == |name| && forall i :: 0 <= i < |d| ==>
              d[i] == (if KeyChar(name[i]) then name[i] else '-') && (Outer(name[i]) <==> d[i] == '-' || d[i] == '.')
  {
  }

  /** A name with nothing to begin a key with gets the same one as every other. */
  lemma NoKeyInIt(name: string)
    requires forall c :: c in name ==> Outer(c)
    ensures SafeKey(name) == "daemon"
  {
    hide KeyChar, StripLeft, StripRight;
    DashedIs(name);
    StripLeftIs(Dashed(name), |name|);
    StripRightIs("", 0);
  }

  /** The base for `n` below 2, and then the base with a number. */
  function Suffixed(base: string, n: nat): string { if n < 2 then base else base + "-" + Decimal(n) }

  lemma SuffixedIsInjective(base: string, m: nat, n: nat)
    requires 1 <= m < n
    ensures Suffixed(base, m) != Suffixed(base, n)
  {
    if m >= 2 {
      ValueOfDecimal(m);
      ValueOfDecimal(n);
      assert Suffixed(base, m)[|base| + 1..] == Decimal(m);
      assert Suffixed(base, n)[|base| + 1..] == Decimal(n);
    }
  }

  /** The key is the first suffixed one that is not taken. */
  ghost predicate Settled(key: string, base: string, taken: set<string>) {
    key !in taken && exists n: nat :: FirstFree(key, base, taken, n)
  }

  ghost predicate FirstFree(key: string, base: string, taken: set<string>, n: nat) {
    n >= 1 && key == Suffixed(base, n) && forall m :: 1 <= m < n ==> Suffixed(base, m) in taken
  }

  /** The key is the base with the first number from 2 on that is free. */
  ghost predicate NumberedFrom(key: string, base: string, taken: set<string>, n: nat) {
    n >= 2 && key == base + "-" + Decimal(n) && forall m: nat :: 2 <= m < n ==> base + "-" + Decimal(m) in taken
  }

  /** The first of the suffixed keys that is free.  Only so many can be taken. */
  method FreshKey(base: string, seen: set<string>) returns (key: string)
    requires IdSafe(base)
    ensures key !in seen && IdSafe(key)
    ensures Settled(key, base, seen)
    ensures key == base || (base in seen && exists n: nat :: NumberedFrom(key, base, seen, n))
  {
    key := base;
    var n: nat := 2;
    ghost var tried: set<string> := {};
    ghost var at: nat := 1;
    while key in seen
      invariant n == at + 1 && at >= 1 && key == Suffixed(base, at) && IdSafe(key)
      invariant tried <= seen && |tried| == at - 1
      invariant forall m :: 1 <= m < at ==> Suffixed(base, m) in tried
      invariant forall k :: k in tried ==> exists m :: 1 <= m < at && k == Suffixed(base, m)
      decreases |seen| - |tried|
    {
      assert key !in tried by {
        forall m | 1 <= m < at ensures Suffixed(base, m) != key { SuffixedIsInjective(base, m, at); }
      }
      tried := tried + {key};
      Subset(tried, seen);
      key := base + "-" + Decimal(n);
      n := n + 1;
      at := at + 1;
    }
    assert FirstFree(key, base, seen, at);
    if at > 1 {
      assert Suffixed(base, 1) == base;
      assert forall m :: 2 <= m < at ==> Suffixed(base, m) == base + "-" + Decimal(m);
      assert NumberedFrom(key, base, seen, at);
    }
  }

  lemma {:induction false} Subset<T>(a: set<T>, b: set<T>)
    requires a <= b
    ensures |a| <= |b|
  {
    if a != {} {
      var x :| x in a;
      Subset(a - {x}, b - {x});
    }
  }

  // ------------------------------------------------------------ the environment's list

  /** One configured daemon before its key is settled: no name means the key comes from
      the path. */
  datatype Spec = Spec(name: Option<string>, path: string)

  /** The key a spec asks for; `stemOf` picks the telling component of a path. */
  function Wanted(s: Spec, stemOf: string -> string): (key: string)
    ensures IdSafe(key)
  {
    if s.name.Some? && s.name.value != "" then SafeKey(s.name.value) else SafeKey(stemOf(s.path))
  }

  ghost predicate DistinctKeys(ds: seq<DaemonRef>) {
    forall i, j :: 0 <= i < j < |ds| ==> ds[i].key != ds[j].key
  }

  function Keys(ds: seq<DaemonRef>): set<string> { set d | d in ds :: d.key }

  /** Entry `i` is the daemon its spec asks for, under the first key free before it. */
  ghost predicate Follows(out: seq<DaemonRef>, specs: seq<Spec>, stemOf: string -> string, i: nat)
    requires i < |out| && i < |specs|
  {
    var d := out[i];
    && d.socket == specs[i].path && d.source == Env && (d.primary <==> i == 0)
    && IdSafe(d.key) && Settled(d.key, Wanted(specs[i], stemOf), Keys(out[..i]))
  }

  lemma FollowsStays(out: seq<DaemonRef>, d: DaemonRef, specs: seq<Spec>, stemOf: string -> string, i: nat)
    requires i < |out| && i < |specs| && Follows(out, specs, stemOf, i)
    ensures Follows(out + [d], specs, stemOf, i)
  {
    assert (out + [d])[..i] == out[..i];
  }

  lemma NoKeys()
    ensures Keys([]) == {} && DistinctKeys([])
  {
  }

  lemma FollowsNew(out: seq<DaemonRef>, d: DaemonRef, specs: seq<Spec>, stemOf: string -> string)
    requires |out| < |specs| && d.socket == specs[|out|].path && d.source == Env && (d.primary <==> out == [])
    requires IdSafe(d.key) && Settled(d.key, Wanted(specs[|out|], stemOf), Keys(out))
    ensures Follows(out + [d], specs, stemOf, |out|)
  {
    hide IdSafe, Settled, Keys, Wanted;
    assert (out + [d])[..|out|] == out;
  }

  lemma KeysGrow(out: seq<DaemonRef>, d: DaemonRef)
    ensures Keys(out + [d]) == Keys(out) + {d.key}
    ensures DistinctKeys(out) && d.key !in Keys(out) ==> DistinctKeys(out + [d])
  {
    assert forall x :: x in out + [d] <==> x in out || x == d;
    assert forall i :: 0 <= i < |out| ==> out[i] in out && out[i].key in Keys(out);
  }

  /** The primary first, then the others; a key already taken is suffixed. */
  method ParseDaemons(specs: seq<Spec>, stemOf: string -> string) returns (out: seq<DaemonRef>)
    requires specs != []
    ensures |out| == |specs| && DistinctKeys(out)
    ensures forall i :: 0 <= i < |out| ==> Follows(out, specs, stemOf, i)
  {
    hide Follows, DistinctKeys, Keys, Settled, Wanted, IdSafe;
    out := [];
    NoKeys();
    var seen: set<string> := {};
    for i := 0 to |specs|
      invariant |out| == i && DistinctKeys(out) && seen == Keys(out)
      invariant forall k :: 0 <= k < i ==> Follows(out, specs, stemOf, k)
    {
      var key := FreshKey(Wanted(specs[i], stemOf), seen);
      var d := DaemonRef(key, specs[i].path, "", i == 0, Env);
      KeysGrow(out, d);
      forall k | 0 <= k < i ensures Follows(out + [d], specs, stemOf, k) { FollowsStays(out, d, specs, stemOf, k); }
      FollowsNew(out, d, specs, stemOf);
      seen := seen + {key};
      out := out + [d];
    }
  }

  /** A daemon named by what is a key already, and no earlier one's, is called that; one with
      no name goes by its path. */
  lemma NamesAreKept(out: seq<DaemonRef>, specs: seq<Spec>, stemOf: string -> string, i: nat)
    requires i < |out| && i < |specs| && Follows(out, specs, stemOf, i)
    ensures var named := specs[i].name.Some? && specs[i].name.value != "";
            var base := if named then specs[i].name.value else stemOf(specs[i].path);
            (base != "" && IdSafe(base) && |base| <= 24 && !Outer(base[0]) && !Outer(base[|base| - 1])
             && forall k :: 0 <= k < i ==> out[k].key != base) ==>
              out[i].key == base
  {
    hide IdSafe, Outer, SafeKey;
    var named := specs[i].name.Some? && specs[i].name.value != "";
    var base := if named then specs[i].name.value else stemOf(specs[i].path);
    if IdSafe(base) && |base| <= 24 && base != "" && !Outer(base[0]) && !Outer(base[|base| - 1])
       && (forall k :: 0 <= k < i ==> out[k].key != base) {
      SafeKeyIs(base, 0, |base|);
      assert base !in Keys(out[..i]);
      var n: nat :| FirstFree(out[i].key, base, Keys(out[..i]), n);
      assert n > 1 ==> Suffixed(base, 1) == base;
    }
  }

  // -------------------------------------------------------------------- the roster

  datatype Refusal =
    | KeyTaken(holder: DaemonRef) | SocketTaken(holder: DaemonRef) | NoSuchKey | FromEnvironment | OnlyOneLeft

  /** The first daemon in the way of `ref`; `resolve` resolves a socket's path. */
  function Collision(ds: seq<DaemonRef>, ref: DaemonRef, resolve: string -> string): Option<Refusal> {
    if ds == [] then None
    else if ds[0].key == ref.key then Some(KeyTaken(ds[0]))
    else if resolve(ds[0].socket) == ref.socket then Some(SocketTaken(ds[0]))
    else Collision(ds[1..], ref, resolve)
  }

  function IndexOf(ds: seq<DaemonRef>, key: string): (i: nat)
    ensures i <= |ds| && (i < |ds| ==> ds[i].key == key) && forall k :: 0 <= k < i ==> ds[k].key != key
  {
    if ds == [] || ds[0].key == key then 0 else 1 + IndexOf(ds[1..], key)
  }

  function AfterAdd(ds: seq<DaemonRef>, ref: DaemonRef, resolve: string -> string): (seq<DaemonRef>, Option<Refusal>) {
    var c := Collision(ds, ref, resolve);
    (if c.Some? then ds else ds + [ref], c)
  }

  function AfterRemove(ds: seq<DaemonRef>, key: string): (seq<DaemonRef>, Option<Refusal>) {
    var i := IndexOf(ds, key);
    if i == |ds| then (ds, Some(NoSuchKey))
    else if ds[i].source == Env then (ds, Some(FromEnvironment))
    else if |ds| == 1 then (ds, Some(OnlyOneLeft))
    else (ds[..i] + ds[i + 1..], None)
  }

  predicate InTheWay(d: DaemonRef, ref: DaemonRef, resolve: string -> string) {
    d.key == ref.key || resolve(d.socket) == ref.socket
  }

  /** `d` is the first of the list in the way of `ref`. */
  predicate FirstInTheWay(ds: seq<DaemonRef>, ref: DaemonRef, resolve: string -> string, d: DaemonRef) {
    exists i :: 0 <= i < |ds| && ds[i] == d && InTheWay(d, ref, resolve)
                && forall k :: 0 <= k < i ==> !InTheWay(ds[k], ref, resolve)
  }

  class Roster {
    var daemons: seq<DaemonRef>

    constructor (daemons: seq<DaemonRef>)
      ensures this.daemons == daemons
    {
      this.daemons := daemons;
    }

    method Add(ref: DaemonRef, resolve: string -> string) returns (refused: Option<Refusal>)
      modifies this
      ensures (daemons, refused) == AfterAdd(old(daemons), ref, resolve)
      ensures match refused
              case None =>
                daemons == old(daemons) + [ref] && forall d :: d in old(daemons) ==> !InTheWay(d, ref, resolve)
              case Some(KeyTaken(d)) =>
                daemons == old(daemons) && FirstInTheWay(daemons, ref, resolve, d) && d.key == ref.key
              case Some(SocketTaken(d)) =>
                daemons == old(daemons) && FirstInTheWay(daemons, ref, resolve, d) && d.key != ref.key
              case _ => false
    {
      assert daemons[0..] == daemons;
      for i := 0 to |daemons|
        invariant forall k :: 0 <= k < i ==> !InTheWay(daemons[k], ref, resolve)
        invariant Collision(daemons[i..], ref, resolve) == Collision(daemons, ref, resolve)
      {
        assert daemons[i..][1..] == daemons[i + 1..];
        if daemons[i].key == ref.key {
          return Some(KeyTaken(daemons[i]));
        }
        if resolve(daemons[i].socket) == ref.socket {
          return Some(SocketTaken(daemons[i]));
        }
      }
      daemons := daemons + [ref];
      refused := None;
    }

    method Remove(key: string) returns (refused: Option<Refusal>)
      modifies this
      ensures (daemons, refused) == AfterRemove(old(daemons), key)
      ensures refused.Some? ==> daemons == old(daemons)
      ensures refused == Some(NoSuchKey) <==> forall d :: d in old(daemons) ==> d.key != key
      ensures refused.None? || refused == Some(FromEnvironment) || refused == Some(OnlyOneLeft) ==>
                exists i :: 0 <= i < |old(daemons)| && old(daemons)[i].key == key
                  && (forall k :: 0 <= k < i ==> old(daemons)[k].key != key)
                  && (refused == Some(FromEnvironment) <==> old(daemons)[i].source == Env)
                  && (refused == Some(OnlyOneLeft) <==> old(daemons)[i].source != Env && |old(daemons)| == 1)
                  && (refused.None? ==> daemons == old(daemons)[..i] + old(daemons)[i + 1..])
      ensures refused.None? || refused == Some(NoSuchKey) || refused == Some(FromEnvironment)
              || refused == Some(OnlyOneLeft)
    {
      var i := IndexOf(daemons, key);
      if i == |daemons| {
        return Some(NoSuchKey);
      }
      if daemons[i].source == Env {
        return Some(FromEnvironment);
      }
      if |daemons| == 1 {
        return Some(OnlyOneLeft);
      }
      daemons := daemons[..i] + daemons[i + 1..];
      refused := None;
    }
  }

  // ------------------------------------------------------------------------- runs

  datatype Op = Add(ref: DaemonRef, resolve: string -> string) | Remove(key: string)

  function Apply(ds: seq<DaemonRef>, op: Op): seq<DaemonRef> {
    match op
    case Add(ref, resolve) => AfterAdd(ds, ref, resolve).0
    case Remove(key) => AfterRemove(ds, key).0
  }

  function Run(ds: seq<DaemonRef>, ops: seq<Op>): seq<DaemonRef> {
    if ops == [] then ds else Apply(Run(ds, ops[..|ops| - 1]), ops[|ops| - 1])
  }

  /** Keys are distinct and id-safe, and the head is configured in the environment. */
  ghost predicate Sound(ds: seq<DaemonRef>) {
    DistinctKeys(ds) && (forall d :: d in ds ==> IdSafe(d.key)) && ds != [] && ds[0].source == Env
  }

  /** Only daemons asked for at run time are added, under a key made safe. */
  predicate Requested(op: Op) { op.Add? ==> op.ref.source == Runtime && IdSafe(op.ref.key) }

  function Configured(ds: seq<DaemonRef>): seq<DaemonRef> {
    if ds == [] then [] else (if ds[0].source == Env then [ds[0]] else []) + Configured(ds[1..])
  }

  lemma {:induction false} ConfiguredConcat(a: seq<DaemonRef>, b: seq<DaemonRef>)
    ensures Configured(a + b) == Configured(a) + Configured(b)
  {
    if a == [] {
      assert a + b == b;
    } else {
      assert (a + b)[1..] == a[1..] + b;
      ConfiguredConcat(a[1..], b);
      var head := if a[0].source == Env then [a[0]] else [];
      assert head + (Configured(a[1..]) + Configured(b)) == head + Configured(a[1..]) + Configured(b);
    }
  }

  lemma {:induction false} NoCollision(ds: seq<DaemonRef>, ref: DaemonRef, resolve: string -> string)
    ensures Collision(ds, ref, resolve).None? <==>
              forall d :: d in ds ==> d.key != ref.key && resolve(d.socket) != ref.socket
  {
    if ds != [] {
      assert ds == [ds[0]] + ds[1..];
      NoCollision(ds[1..], ref, resolve);
    }
  }

  lemma AddKeeps(ds: seq<DaemonRef>, ref: DaemonRef, resolve: string -> string)
    requires Sound(ds) && ref.source == Runtime && IdSafe(ref.key)
    ensures var r := AfterAdd(ds, ref, resolve).0;
            Sound(r) && r[0] == ds[0] && Configured(r) == Configured(ds)
  {
    NoCollision(ds, ref, resolve);
    ConfiguredConcat(ds, [ref]);
    hide Collision, Configured, IdSafe;
    NotConfigured(ds, ref);
    assert forall i :: 0 <= i < |ds| ==> ds[i] in ds;
  }

  lemma NotConfigured(ds: seq<DaemonRef>, d: DaemonRef)
    requires d.source == Runtime
    ensures Configured(ds) + Configured([d]) == Configured(ds)
    ensures Configured([d] + ds) == Configured(ds)
  {
    assert ([d] + ds)[1..] == ds;
  }

  lemma RemoveKeeps(ds: seq<DaemonRef>, key: string)
    requires Sound(ds)
    ensures var r := AfterRemove(ds, key).0;
            Sound(r) && r[0] == ds[0] && Configured(r) == Configured(ds)
  {
    var i := IndexOf(ds, key);
    if i < |ds| && ds[i].source == Runtime {
      ConfiguredWithout(ds, i);
      hide Configured, IdSafe;
      var r := ds[..i] + ds[i + 1..];
      assert i > 0 && r[0] == ds[0];
      assert forall k :: 0 <= k < |r| ==> r[k] == ds[if k < i then k else k + 1];
    }
  }

  lemma ConfiguredWithout(ds: seq<DaemonRef>, i: nat)
    requires i < |ds| && ds[i].source == Runtime
    ensures Configured(ds[..i] + ds[i + 1..]) == Configured(ds)
  {
    var a, b := ds[..i], ds[i + 1..];
    assert ds == a + ([ds[i]] + b);
    ConfiguredConcat(a, [ds[i]] + b);
    ConfiguredConcat(a, b);
    NotConfigured(b, ds[i]);
  }

  /** One request keeps the roster sound, the configured entries in place and the head. */
  lemma StepKeeps(ds: seq<DaemonRef>, op: Op)
    requires Sound(ds) && Requested(op)
    ensures var r := Apply(ds, op);
            Sound(r) && r[0] == ds[0] && Configured(r) == Configured(ds)
  {
    match op
    case Add(ref, resolve) => AddKeeps(ds, ref, resolve);
    case Remove(key) => RemoveKeeps(ds, key);
  }

  /** Over every run of additions and removals from a configured list, keys stay distinct
      and id-safe, the configured entries all remain in order, and the primary is the same. */
  lemma {:induction false} RunsKeep(ds: seq<DaemonRef>, ops: seq<Op>)
    requires Sound(ds) && forall i :: 0 <= i < |ops| ==> Requested(ops[i])
    ensures Sound(Run(ds, ops)) && Run(ds, ops)[0] == ds[0] && Configured(Run(ds, ops)) == Configured(ds)
  {
    if ops != [] {
      RunsKeep(ds, ops[..|ops| - 1]);
      StepKeeps(Run(ds, ops[..|ops| - 1]), ops[|ops| - 1]);
    }
  }

  lemma {:induction false} AllConfigured(ds: seq<DaemonRef>)
    requires forall i :: 0 <= i < |ds| ==> ds[i].source == Env
    ensures Configured(ds) == ds
  {
    if ds != [] {
      AllConfigured(ds[1..]);
      assert [ds[0]] + ds[1..] == ds;
    }
  }

  /** From a parsed list on: whatever is added and removed, every parsed entry stays, in
      order, and the head is the parsed primary. */
  lemma ParsedListSurvives(out: seq<DaemonRef>, specs: seq<Spec>, stemOf: string -> string, ops: seq<Op>)
    requires specs != [] && |out| == |specs| && DistinctKeys(out)
    requires forall i :: 0 <= i < |out| ==> Follows(out, specs, stemOf, i)
    requires forall i :: 0 <= i < |ops| ==> Requested(ops[i])
    ensures Sound(Run(out, ops)) && Configured(Run(out, ops)) == out
    ensures Run(out, ops)[0] == out[0] && out[0].primary && out[0].socket == specs[0].path
  {
    hide Follows, DistinctKeys, Run, Configured, Requested, Sound;
    forall i | 0 <= i < |out| ensures out[i].source == Env && IdSafe(out[i].key) {
      ParsedEntry(out, specs, stemOf, i);
    }
    ParsedEntry(out, specs, stemOf, 0);
    AllConfigured(out);
    SoundWhen(out);
    RunsKeep(out, ops);
  }

  lemma ParsedEntry(out: seq<DaemonRef>, specs: seq<Spec>, stemOf: string -> string, i: nat)
    requires i < |out| && i < |specs| && Follows(out, specs, stemOf, i)
    ensures out[i].source == Env && IdSafe(out[i].key) && out[i].socket == specs[i].path && (out[i].primary <==> i == 0)
  {
    hide IdSafe, Settled, Keys;
  }

  lemma SoundWhen(ds: seq<DaemonRef>)
    requires ds != [] && DistinctKeys(ds) && forall i :: 0 <= i < |ds| ==> ds[i].source == Env && IdSafe(ds[i].key)
    ensures Sound(ds)
  {
    hide IdSafe, DistinctKeys;
  }

  /** A removal is refused exactly for an unknown key and for a configured entry; the roster
      is never down to one that could be removed. */
  lemma RemoveRefusesExactly(ds: seq<DaemonRef>, key: string)
    requires Sound(ds)
    ensures AfterRemove(ds, key).1.None? <==> exists d :: d in ds && d.key == key && d.source == Runtime
    ensures AfterRemove(ds, key).1 != Some(OnlyOneLeft)
  {
    var i := IndexOf(ds, key);
    if i < |ds| {
      assert ds[i] in ds;
      assert forall d :: d in ds && d.key == key ==> d == ds[i];
    } else {
      assert forall d :: d in ds ==> d.key != key;
    }
  }
}
