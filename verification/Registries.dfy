/** The connections of a server: a list of those that have not told their device id yet, and a map from device
    id to connection for those that have. */
module Registries {
  import opened Bytes
  import opened Packets
  import opened Lru
  import opened Counting

  type Id = seq<Byte>

  /** Connections are numbered in the order they were accepted.  id is empty until it is told. */
  datatype Life = Life(id: Id, over: bool)

  /** None in pending stands for a pointer that was moved from. */
  datatype Registry = Registry(pending: seq<Option<nat>>, byId: map<Id, nat>, lives: seq<Life>)

  const EMPTY_REGISTRY := Registry([], map[], [])

  datatype Op = Accepted | Told(c: nat, id: Id) | Closed(c: nat)

  /** A connection tells one id, a non-empty one; its end may be reported more than once. */
  predicate Enabled(r: Registry, op: Op) {
    match op
    case Accepted => true
    case Told(c, id) => c < |r.lives| && r.lives[c] == Life([], false) && id != []
    case Closed(c) => c < |r.lives|
  }

  // ----- Removing without erasing -----

  /** The place of c in the list, or its length. */
  function PlaceOf(l: seq<Option<nat>>, c: nat): (i: nat)
    ensures i <= |l|
    ensures i < |l| ==> l[i] == Some(c)
    ensures Some(c) !in l[..i]
  {
    if l == [] || l[0] == Some(c) then 0
    else
      var i := PlaceOf(l[1..], c);
      assert l[..i + 1] == [l[0]] + l[1..][..i];
      1 + i
  }

  /** What remove_if leaves in the list when nothing is erased behind what it keeps: the rest is shifted to the
      front, and behind it are the pointers that were there, null where they were moved from. */
  function Removed(l: seq<Option<nat>>, c: nat): (r: seq<Option<nat>>)
    ensures |r| == |l|
  {
    var kept := Without(l, Some(c));
    kept + Vacated(l[|kept|..], c)
  }

  function Vacated(l: seq<Option<nat>>, c: nat): (r: seq<Option<nat>>)
    ensures |r| == |l|
  {
    seq(|l|, i requires 0 <= i < |l| => if l[i] == Some(c) then Some(c) else None)
  }

  lemma WithoutSnoc<T>(xs: seq<T>, x: T, v: T)
    ensures Without(xs + [x], v) == Without(xs, v) + if x == v then [] else [x]
  {
    if xs == [] {
      assert xs + [x] == [x] && [x][1..] == [];
    } else {
      WithoutSnoc(xs[1..], x, v);
      assert (xs + [x])[1..] == xs[1..] + [x];
    }
  }

  lemma {:induction false} WithoutConcat<T>(xs: seq<T>, ys: seq<T>, v: T)
    ensures Without(xs + ys, v) == Without(xs, v) + Without(ys, v)
    decreases |xs|
  {
    if xs == [] {
      assert xs + ys == ys;
    } else {
      assert (xs + ys)[1..] == xs[1..] + ys;
      WithoutConcat(xs[1..], ys, v);
    }
  }

  lemma RemovedNone(l: seq<Option<nat>>, c: nat)
    requires Some(c) !in l
    ensures Removed(l, c) == l
  {
    WithoutAbsent(l, Some(c));
  }

  /** The list when all before i is done with: what is kept of that, what it leaves behind, and the rest. */
  function Stage(l: seq<Option<nat>>, c: nat, i: nat): seq<Option<nat>>
    requires i <= |l|
  {
    var kept := Without(l[..i], Some(c));
    kept + Vacated(l[|kept|..i], c) + l[i..]
  }

  lemma StageStart(l: seq<Option<nat>>, c: nat, i: nat)
    requires i < |l| && l[i] == Some(c) && Some(c) !in l[..i]
    ensures Stage(l, c, i + 1) == l && |Without(l[..i + 1], Some(c))| == i
  {
    WithoutAbsent(l[..i], Some(c));
    WithoutSnoc(l[..i], l[i], Some(c));
    assert l[..i + 1] == l[..i] + [l[i]];
  }

  lemma StageEnd(l: seq<Option<nat>>, c: nat)
    ensures Stage(l, c, |l|) == Removed(l, c)
  {
    assert l[..|l|] == l && l[|l|..] == [];
    var kept := Without(l, Some(c));
    assert l[|kept|..|l|] == l[|kept|..];
  }

  lemma VacatedGrows(l: seq<Option<nat>>, c: nat, i: nat, j: nat)
    requires i <= j < |l|
    ensures Vacated(l[i..j + 1], c) == Vacated(l[i..j], c) + Vacated([l[j]], c)
  {
    assert l[i..j + 1] == l[i..j] + [l[j]];
  }

  lemma MoveInto<T>(a: seq<T>, x: T, b: seq<T>, y: T, z: T, d: seq<T>)
    ensures (a + ([x] + b) + ([y] + d))[|a| := y][|a| + 1 + |b| := z] == (a + [y]) + (b + [z]) + d
  {
  }

  /** One step over l: what is kept grows by l[i], or not. */
  lemma MoveOne(l: seq<Option<nat>>, c: nat, i: nat, first: nat, r: seq<Option<nat>>)
    requires first < i < |l| && |Without(l[..i], Some(c))| == first && r == Stage(l, c, i)
    ensures |r| == |l| && r[i] == l[i]
    ensures |Without(l[..i + 1], Some(c))| == if l[i] == Some(c) then first else first + 1
    ensures (if l[i] == Some(c) then r else r[first := l[i]][i := None]) == Stage(l, c, i + 1)
  {
    var kept := Without(l[..i], Some(c));
    WithoutSnoc(l[..i], l[i], Some(c));
    assert l[..i + 1] == l[..i] + [l[i]];
    assert l[i..] == [l[i]] + l[i + 1..];
    if l[i] == Some(c) {
      VacatedGrows(l, c, first, i);
      assert Vacated([l[i]], c) == [l[i]];
      MoveNothing(kept, Vacated(l[first..i], c), l[i], l[i + 1..]);
    } else {
      VacatedGrows(l, c, first + 1, i);
      assert Vacated([l[i]], c) == [None];
      assert Vacated(l[first..i], c) == [Vacated(l[first..i], c)[0]] + Vacated(l[first + 1..i], c);
      MoveInto(kept, Vacated(l[first..i], c)[0], Vacated(l[first + 1..i], c), l[i], None, l[i + 1..]);
    }
  }

  lemma MoveNothing<T>(a: seq<T>, b: seq<T>, y: T, d: seq<T>)
    ensures a + b + ([y] + d) == a + (b + [y]) + d
  {
  }

  /** first is where the next kept pointer goes, and r is the list, when all before i is done with. */
  ghost predicate AtStage(l: seq<Option<nat>>, c: nat, i: nat, first: nat, r: seq<Option<nat>>) {
    first < i <= |l| == |r| && |Without(l[..i], Some(c))| == first && r == Stage(l, c, i)
  }

  method MoveIfKept(l: seq<Option<nat>>, c: nat, i: nat, first: nat, r: seq<Option<nat>>)
    returns (next: nat, s: seq<Option<nat>>)
    requires i < |l| && AtStage(l, c, i, first, r)
    ensures AtStage(l, c, i + 1, next, s)
  {
    MoveOne(l, c, i, first, r);
    if r[i] != Some(c) {
      next, s := first + 1, r[first := r[i]][i := None];
    } else {
      next, s := first, r;
    }
  }

  /** Moves what is kept behind from to the front, one by one. */
  method MoveKept(l: seq<Option<nat>>, c: nat, from: nat) returns (r: seq<Option<nat>>)
    requires from < |l| && l[from] == Some(c) && Some(c) !in l[..from]
    ensures r == Removed(l, c)
  {
    r := l;
    var first, i := from, from + 1;
    StageStart(l, c, from);
    while i < |l|
      invariant i <= |l| && AtStage(l, c, i, first, r)
    {
      first, r := MoveIfKept(l, c, i, first, r);
      i := i + 1;
    }
    StageEnd(l, c);
  }

  /** std::remove_if as it runs. */
  method RemoveIf(l: seq<Option<nat>>, c: nat) returns (r: seq<Option<nat>>)
    ensures r == Removed(l, c)
  {
    var first := FindIf(l, c);
    if first == |l| {
      RemovedNone(l, c);
      return l;
    }
    r := MoveKept(l, c, first);
  }

  method FindIf(l: seq<Option<nat>>, c: nat) returns (first: nat)
    ensures first == PlaceOf(l, c)
  {
    first := 0;
    while first < |l| && l[first] != Some(c)
      invariant first <= |l| && PlaceOf(l, c) == first + PlaceOf(l[first..], c)
    {
      assert l[first..][1..] == l[first + 1..];
      first := first + 1;
    }
  }

  /** No pointer is there twice. */
  ghost predicate Once(l: seq<Option<nat>>) {
    forall i, j :: 0 <= i < j < |l| && l[i].Some? ==> l[i] != l[j]
  }

  /** With c in one place: the rest moves up and a null pointer is left at the end, unless c was the last. */
  lemma RemovedOne(l: seq<Option<nat>>, i: nat, c: nat)
    requires Once(l) && i < |l| && l[i] == Some(c)
    ensures Removed(l, c) == if i == |l| - 1 then l else l[..i] + l[i + 1..] + [None]
  {
    var rest, last := l[i + 1..], |l| - 1;
    assert l == l[..i] + ([l[i]] + rest);
    assert ([l[i]] + rest)[1..] == rest;
    WithoutConcat(l[..i], [l[i]] + rest, Some(c));
    WithoutAbsent(l[..i], Some(c));
    WithoutAbsent(rest, Some(c));
    var kept := l[..i] + rest;
    assert Without(l, Some(c)) == kept && |kept| == last;
    assert l[last..] == [l[last]];
    if i == last {
      assert Vacated([l[last]], c) == [Some(c)];
      assert kept + [Some(c)] == l;
    } else {
      assert Vacated([l[last]], c) == [None];
    }
  }

  lemma MovedUp(l: seq<Option<nat>>, i: nat)
    requires Once(l) && i < |l| - 1 && l[i].Some?
    ensures var r := l[..i] + l[i + 1..] + [None];
            && Once(r)
            && (forall p: Option<nat> :: p.Some? && p in r ==> p in l)
            && (forall p: Option<nat> :: p.Some? && p != l[i] && p in l ==> p in r)
            && l[i] !in r
  {
    var r := l[..i] + l[i + 1..] + [None];
    forall p: Option<nat> | p.Some? && p != l[i] && p in l
      ensures p in r
    {
      var k :| 0 <= k < |l| && l[k] == p;
      assert r[if k < i then k else k - 1] == p;
    }
  }

  /** A closed connection stays in the list exactly when it was the last in it. */
  lemma StaysIffLast(l: seq<Option<nat>>, c: nat)
    requires Once(l)
    ensures Some(c) in Removed(l, c) <==> l != [] && l[|l| - 1] == Some(c)
  {
    if Some(c) in l {
      var i :| 0 <= i < |l| && l[i] == Some(c);
      RemovedOne(l, i, c);
      if i < |l| - 1 {
        MovedUp(l, i);
      }
    } else {
      RemovedNone(l, c);
    }
  }

  // ----- The steps -----

  function Apply(r: Registry, op: Op): Registry
    requires Enabled(r, op)
  {
    match op
    case Accepted =>
      Registry(r.pending + [Some(|r.lives|)], r.byId, r.lives + [Life([], false)])
    case Told(c, id) =>
      var i := PlaceOf(r.pending, c);
      var lives := r.lives[c := Life(id, false)];
      if i == |r.pending| then Registry(r.pending, r.byId, lives)
      else Registry(r.pending[..i] + r.pending[i + 1..], r.byId[id := c], lives)
    case Closed(c) =>
      Registry(Removed(r.pending, c), r.byId - {r.lives[c].id}, r.lives[c := r.lives[c].(over := true)])
  }

  /** What a run of steps leads to; None when some step could not be taken where it stands. */
  function Replay(ops: seq<Op>): Option<Registry>
    decreases |ops|
  {
    if ops == [] then Some(EMPTY_REGISTRY)
    else
      match Replay(ops[..|ops| - 1])
      case None => None
      case Some(r) => if Enabled(r, ops[|ops| - 1]) then Some(Apply(r, ops[|ops| - 1])) else None
  }

  lemma ReplaySnoc(ops: seq<Op>, op: Op)
    requires Replay(ops).Some? && Enabled(Replay(ops).value, op)
    ensures Replay(ops + [op]) == Some(Apply(Replay(ops).value, op))
  {
    assert (ops + [op])[..|ops|] == ops;
  }

  // ----- What every run keeps -----

  /** Under id is a connection that told id and is not over. */
  ghost predicate MapsOwn(byId: map<Id, nat>, lives: seq<Life>, id: Id)
    requires id in byId
  {
    id != [] && byId[id] < |lives| && lives[byId[id]] == Life(id, false)
  }

  /** The connection in this place, if any, has not told an id. */
  ghost predicate Untold(p: Option<nat>, lives: seq<Life>) {
    p.Some? ==> p.value < |lives| && lives[p.value].id == []
  }

  ghost predicate MapOk(byId: map<Id, nat>, lives: seq<Life>) {
    forall id :: id in byId ==> MapsOwn(byId, lives, id)
  }

  ghost predicate ListOk(pending: seq<Option<nat>>, lives: seq<Life>) {
    && Once(pending)
    && (forall i :: 0 <= i < |pending| ==> Untold(pending[i], lives))
    && (forall c :: 0 <= c < |lives| && lives[c] == Life([], false) ==> Some(c) in pending)
  }

  ghost predicate Consistent(r: Registry) {
    MapOk(r.byId, r.lives) && ListOk(r.pending, r.lives)
  }

  lemma AcceptedKeeps(r: Registry)
    requires Consistent(r)
    ensures Consistent(Apply(r, Accepted))
  {
    var t := Apply(r, Accepted);
    forall c | 0 <= c < |t.lives| && t.lives[c] == Life([], false)
      ensures Some(c) in t.pending
    {
      if c == |r.lives| {
        assert t.pending[|r.pending|] == Some(c);
      }
    }
    forall id | id in t.byId
      ensures MapsOwn(t.byId, t.lives, id)
    {
      assert MapsOwn(r.byId, r.lives, id);
    }
  }

  lemma ToldFinds(r: Registry, c: nat, id: Id)
    requires Consistent(r) && Enabled(r, Told(c, id))
    ensures PlaceOf(r.pending, c) < |r.pending|
  {
    assert r.lives[c] == Life([], false);
    assert r.pending[..|r.pending|] == r.pending;
  }

  /** One place taken out of the list, and the connection in it told its id. */
  lemma ToldKeepsList(pending: seq<Option<nat>>, lives: seq<Life>, i: nat, c: nat, id: Id)
    requires ListOk(pending, lives) && i < |pending| && pending[i] == Some(c) && c < |lives| && id != []
    ensures ListOk(pending[..i] + pending[i + 1..], lives[c := Life(id, false)])
  {
    var rest, told := pending[..i] + pending[i + 1..], lives[c := Life(id, false)];
    forall k | 0 <= k < |rest|
      ensures Untold(rest[k], told)
    {
      assert rest[k] == pending[if k < i then k else k + 1];
      assert Untold(rest[k], lives) && rest[k] != Some(c);
    }
    forall d | 0 <= d < |told| && told[d] == Life([], false)
      ensures Some(d) in rest
    {
      assert d != c && lives[d] == Life([], false);
      var k :| 0 <= k < |pending| && pending[k] == Some(d);
      assert rest[if k < i then k else k - 1] == Some(d);
    }
  }

  lemma ToldKeeps(r: Registry, c: nat, id: Id)
    requires Consistent(r) && Enabled(r, Told(c, id))
    ensures Consistent(Apply(r, Told(c, id)))
  {
    ToldFinds(r, c, id);
    var t := Apply(r, Told(c, id));
    ToldKeepsList(r.pending, r.lives, PlaceOf(r.pending, c), c, id);
    forall k | k in t.byId
      ensures MapsOwn(t.byId, t.lives, k)
    {
      assert k == id || MapsOwn(r.byId, r.lives, k);
    }
  }

  /** What is in the list after a removal was in it before, once; nothing but c is gone. */
  lemma RemovedKeepsList(l: seq<Option<nat>>, c: nat)
    requires Once(l)
    ensures Once(Removed(l, c))
    ensures forall p: Option<nat> :: p.Some? && p in Removed(l, c) ==> p in l
    ensures forall p: Option<nat> :: p.Some? && p != Some(c) && p in l ==> p in Removed(l, c)
  {
    if Some(c) in l {
      var i :| 0 <= i < |l| && l[i] == Some(c);
      RemovedOne(l, i, c);
      if i < |l| - 1 {
        MovedUp(l, i);
      }
    } else {
      RemovedNone(l, c);
    }
  }

  lemma ClosedKeeps(r: Registry, c: nat)
    requires Consistent(r) && Enabled(r, Closed(c))
    ensures Consistent(Apply(r, Closed(c)))
  {
    var t := Apply(r, Closed(c));
    RemovedKeepsList(r.pending, c);
    forall k | 0 <= k < |t.pending|
      ensures Untold(t.pending[k], t.lives)
    {
      if t.pending[k].Some? {
        assert t.pending[k] in t.pending;
        var j :| 0 <= j < |r.pending| && r.pending[j] == t.pending[k];
        assert Untold(r.pending[j], r.lives);
      }
    }
    forall id | id in t.byId
      ensures MapsOwn(t.byId, t.lives, id)
    {
      assert MapsOwn(r.byId, r.lives, id);
    }
  }

  lemma StepKeeps(r: Registry, op: Op)
    requires Consistent(r) && Enabled(r, op)
    ensures Consistent(Apply(r, op))
  {
    match op
    case Accepted => AcceptedKeeps(r);
    case Told(c, id) => ToldKeeps(r, c, id);
    case Closed(c) => ClosedKeeps(r, c);
  }

  lemma {:induction false} ConsistentAlways(ops: seq<Op>)
    requires Replay(ops).Some?
    ensures Consistent(Replay(ops).value)
    decreases |ops|
  {
    if ops != [] {
      ConsistentAlways(ops[..|ops| - 1]);
      StepKeeps(Replay(ops[..|ops| - 1]).value, ops[|ops| - 1]);
    }
  }

  /** In every run: what is under an id told that id; no connection is under two ids, or twice in the list, or
      both under an id and in the list. */
  lemma Separated(ops: seq<Op>, id: Id, other: Id, i: nat, j: nat)
    requires Replay(ops).Some?
    ensures var r := Replay(ops).value;
            && (id in r.byId ==> id != [] && r.byId[id] < |r.lives| && r.lives[r.byId[id]] == Life(id, false))
            && (id in r.byId && other in r.byId && r.byId[id] == r.byId[other] ==> id == other)
            && (i < j < |r.pending| && r.pending[i].Some? ==> r.pending[i] != r.pending[j])
            && (id in r.byId && i < |r.pending| ==> r.pending[i] != Some(r.byId[id]))
  {
    ConsistentAlways(ops);
    var r := Replay(ops).value;
    assert id in r.byId ==> MapsOwn(r.byId, r.lives, id);
    assert other in r.byId ==> MapsOwn(r.byId, r.lives, other);
    assert i < |r.pending| ==> Untold(r.pending[i], r.lives);
  }

  /** A connection that tells its id is found, and is under that id from then on, in place of any other. */
  lemma ToldIsMapped(ops: seq<Op>, c: nat, id: Id)
    requires Replay(ops).Some? && Enabled(Replay(ops).value, Told(c, id))
    ensures var r := Apply(Replay(ops).value, Told(c, id));
            id in r.byId && r.byId[id] == c && Some(c) !in r.pending
  {
    ConsistentAlways(ops);
    var r := Replay(ops).value;
    ToldFinds(r, c, id);
    ToldKeeps(r, c, id);
    var t := Apply(r, Told(c, id));
    forall i | 0 <= i < |t.pending|
      ensures t.pending[i] != Some(c)
    {
      assert Untold(t.pending[i], t.lives);
    }
  }

  // ----- The order of the list -----

  /** The connections in the list are in the order in which they were accepted. */
  ghost predicate Ascending(l: seq<Option<nat>>, bound: nat) {
    && (forall i :: 0 <= i < |l| && l[i].Some? ==> l[i].value < bound)
    && (forall i, j :: 0 <= i < j < |l| && l[i].Some? && l[j].Some? ==> l[i].value < l[j].value)
  }

  lemma AscendingWithout(l: seq<Option<nat>>, i: nat, bound: nat)
    requires Ascending(l, bound) && i < |l|
    ensures Ascending(l[..i] + l[i + 1..], bound) && Ascending(l[..i] + l[i + 1..] + [None], bound)
  {
    var rest := l[..i] + l[i + 1..];
    assert forall k :: 0 <= k < |rest| ==> rest[k] == l[if k < i then k else k + 1];
  }

  lemma StepKeepsOrder(r: Registry, op: Op)
    requires Consistent(r) && Enabled(r, op) && Ascending(r.pending, |r.lives|)
    ensures Ascending(Apply(r, op).pending, |Apply(r, op).lives|)
  {
    match op
    case Accepted =>
    case Told(c, id) =>
      ToldFinds(r, c, id);
      AscendingWithout(r.pending, PlaceOf(r.pending, c), |r.lives|);
    case Closed(c) =>
      if Some(c) in r.pending {
        var i :| 0 <= i < |r.pending| && r.pending[i] == Some(c);
        RemovedOne(r.pending, i, c);
        AscendingWithout(r.pending, i, |r.lives|);
      } else {
        RemovedNone(r.pending, c);
      }
  }

  /** In every run those accepted later stand behind those accepted earlier. */
  lemma {:induction false} InOrderOfAcceptance(ops: seq<Op>)
    requires Replay(ops).Some?
    ensures Ascending(Replay(ops).value.pending, |Replay(ops).value.lives|)
    decreases |ops|
  {
    if ops != [] {
      var front := ops[..|ops| - 1];
      InOrderOfAcceptance(front);
      ConsistentAlways(front);
      StepKeepsOrder(Replay(front).value, ops[|ops| - 1]);
    }
  }

  // ----- How long the list gets -----

  function UntoldMany(lives: seq<Life>): nat
    decreases |lives|
  {
    if lives == [] then 0 else UntoldMany(lives[..|lives| - 1]) + One(lives[|lives| - 1].id == [])
  }

  lemma {:induction false} LifeReplaced(lives: seq<Life>, c: nat, l: Life)
    requires c < |lives|
    ensures UntoldMany(lives[c := l]) == UntoldMany(lives) - One(lives[c].id == []) + One(l.id == [])
    decreases |lives|
  {
    var n := |lives| - 1;
    if c == n {
      assert lives[c := l][..n] == lives[..n];
    } else {
      assert lives[c := l][..n] == lives[..n][c := l];
      LifeReplaced(lives[..n], c, l);
    }
  }

  /** The list has a place for every connection that never told its id, open or closed: closing one never gives
      a place back. */
  lemma {:induction false} ListNeverShrinks(ops: seq<Op>)
    requires Replay(ops).Some?
    ensures |Replay(ops).value.pending| == UntoldMany(Replay(ops).value.lives)
    decreases |ops|
  {
    if ops != [] {
      var front, last := ops[..|ops| - 1], ops[|ops| - 1];
      var r := Replay(front).value;
      ListNeverShrinks(front);
      match last {
        case Accepted =>
          assert (r.lives + [Life([], false)])[..|r.lives|] == r.lives;
        case Told(c, id) =>
          ConsistentAlways(front);
          ToldFinds(r, c, id);
          LifeReplaced(r.lives, c, Life(id, false));
        case Closed(c) =>
          LifeReplaced(r.lives, c, r.lives[c].(over := true));
      }
    }
  }

  // ----- Whether a device can be reached -----

  /** Every open connection that has told its id is under it. */
  ghost predicate AllServed(r: Registry) {
    forall c :: 0 <= c < |r.lives| && r.lives[c].id != [] && !r.lives[c].over ==> Served(r, c)
  }

  ghost predicate Served(r: Registry, c: nat)
    requires c < |r.lives|
  {
    r.lives[c].id in r.byId && r.byId[r.lives[c].id] == c
  }

  /** What cuts an open connection off: another one tells the id it is under, or the end of an earlier one that
      told that id is reported again. */
  ghost predicate CutsOff(r: Registry, op: Op)
    requires Enabled(r, op)
  {
    match op
    case Accepted => false
    case Told(_, id) => id in r.byId
    case Closed(c) => r.lives[c].id in r.byId && r.byId[r.lives[c].id] != c
  }

  /** Exactly these steps cut one off. */
  lemma CutOffIff(r: Registry, op: Op)
    requires Consistent(r) && Enabled(r, op) && AllServed(r)
    ensures AllServed(Apply(r, op)) <==> !CutsOff(r, op)
  {
    if op.Told? {
      ToldFinds(r, op.c, op.id);
    }
    if CutsOff(r, op) {
      CutOffLoses(r, op);
    } else {
      forall c | 0 <= c < |Apply(r, op).lives| && Apply(r, op).lives[c].id != [] && !Apply(r, op).lives[c].over
        ensures Served(Apply(r, op), c)
      {
        if c < |r.lives| && r.lives[c].id != [] {
          assert Served(r, c);
        }
      }
    }
  }

  lemma CutOffLoses(r: Registry, op: Op)
    requires Consistent(r) && Enabled(r, op) && CutsOff(r, op)
    ensures !AllServed(Apply(r, op))
  {
    var id := if op.Told? then op.id else r.lives[op.c].id;
    assert MapsOwn(r.byId, r.lives, id);
    if op.Told? {
      ToldFinds(r, op.c, op.id);
    }
    assert !Served(Apply(r, op), r.byId[id]);
  }

  /** c is in the map under id. */
  ghost predicate IsUnder(r: Registry, c: nat, id: Id) {
    id in r.byId && r.byId[id] == c
  }

  /** The step names id: a connection tells it, or one that has told it closes. */
  ghost predicate Names(ops: seq<Op>, j: nat, id: Id)
    requires j < |ops|
  {
    match ops[j]
    case Accepted => false
    case Told(_, x) => x == id
    case Closed(c) => Told(c, id) in ops[..j]
  }

  /** c told id at step i, and no step since names id. */
  ghost predicate LatestSince(ops: seq<Op>, i: nat, c: nat, id: Id) {
    && i < |ops|
    && ops[i] == Told(c, id)
    && forall j :: i < j < |ops| ==> !Names(ops, j, id)
  }

  lemma {:induction false} TellingIsRecorded(ops: seq<Op>, c: nat, id: Id)
    requires Replay(ops).Some? && id != []
    ensures Told(c, id) in ops <==> c < |Replay(ops).value.lives| && Replay(ops).value.lives[c].id == id
    decreases |ops|
  {
    if ops != [] {
      TellingIsRecorded(ops[..|ops| - 1], c, id);
      assert ops == ops[..|ops| - 1] + [ops[|ops| - 1]];
    }
  }

  lemma LatestSnoc(front: seq<Op>, last: Op, i: nat, c: nat, id: Id)
    ensures LatestSince(front + [last], i, c, id)
       <==> if i == |front| then last == Told(c, id)
            else LatestSince(front, i, c, id) && !Names(front + [last], |front|, id)
  {
    var ops := front + [last];
    forall j | 0 <= j < |front|
      ensures Names(ops, j, id) == Names(front, j, id)
    {
      assert ops[..j] == front[..j];
    }
  }

  lemma LatestExtends(front: seq<Op>, last: Op, c: nat, id: Id)
    ensures (exists i: nat :: LatestSince(front + [last], i, c, id))
       <==> (last == Told(c, id)
             || (!Names(front + [last], |front|, id) && exists i: nat :: LatestSince(front, i, c, id)))
  {
    var ops := front + [last];
    if i: nat :| LatestSince(ops, i, c, id) {
      LatestSnoc(front, last, i, c, id);
    }
    if last == Told(c, id) {
      LatestSnoc(front, last, |front|, c, id);
      assert LatestSince(ops, |front|, c, id);
    }
    if i: nat :| LatestSince(front, i, c, id) {
      LatestSnoc(front, last, i, c, id);
    }
  }

  lemma ToldStep(r: Registry, d: nat, x: Id, c: nat, id: Id)
    requires Consistent(r) && Enabled(r, Told(d, x))
    ensures IsUnder(Apply(r, Told(d, x)), c, id) <==> if x == id then c == d else IsUnder(r, c, id)
  {
    ToldFinds(r, d, x);
  }

  /** What the last step does to the entry of id, by the history before it. */
  lemma LastStep(front: seq<Op>, last: Op, c: nat, id: Id)
    requires Replay(front).Some? && Enabled(Replay(front).value, last) && id != []
    ensures IsUnder(Apply(Replay(front).value, last), c, id)
       <==> last == Told(c, id) || (!Names(front + [last], |front|, id) && IsUnder(Replay(front).value, c, id))
  {
    ConsistentAlways(front);
    NamesLast(front, last, id);
    match last
    case Accepted =>
    case Told(d, x) => ToldStep(Replay(front).value, d, x, c, id);
    case Closed(d) => TellingIsRecorded(front, d, id);
  }

  lemma NamesLast(front: seq<Op>, last: Op, id: Id)
    ensures Names(front + [last], |front|, id)
       <==> match last
            case Accepted => false
            case Told(_, x) => x == id
            case Closed(c) => Told(c, id) in front
  {
    assert (front + [last])[..|front|] == front;
  }

  /** In every run, c is under id exactly when it told id and since then no connection told it and none that
      ever told it closed. */
  lemma {:induction false} MappedIff(ops: seq<Op>, c: nat, id: Id)
    requires Replay(ops).Some? && id != []
    ensures IsUnder(Replay(ops).value, c, id) <==> exists i: nat :: LatestSince(ops, i, c, id)
    decreases |ops|
  {
    if ops != [] {
      var front, last := ops[..|ops| - 1], ops[|ops| - 1];
      assert ops == front + [last];
      MappedIff(front, c, id);
      LastStep(front, last, c, id);
      LatestExtends(front, last, c, id);
    }
  }

  lemma StepTo(ops: seq<Op>, r: Registry, op: Op, t: Registry)
    requires Replay(ops) == Some(r) && Enabled(r, op) && Apply(r, op) == t
    ensures Replay(ops + [op]) == Some(t)
  {
    ReplaySnoc(ops, op);
  }

  lemma OnlyOneTells(r: Registry, c: nat, id: Id)
    requires Enabled(r, Told(c, id)) && r.pending == [Some(c)]
    ensures Apply(r, Told(c, id)) == Registry([], r.byId[id := c], r.lives[c := Life(id, false)])
  {
    assert r.pending[..0] + r.pending[1..] == [];
  }

  lemma OneConnection(id: Id) returns (ops: seq<Op>)
    requires id != []
    ensures Replay(ops) == Some(Registry([], map[id := 0], [Life(id, false)]))
  {
    var r := Registry([Some(0)], map[], [Life([], false)]);
    StepTo([], EMPTY_REGISTRY, Accepted, r);
    OnlyOneTells(r, 0, id);
    StepTo([] + [Accepted], r, Told(0, id), Registry([], map[id := 0], [Life(id, false)]));
    ops := [] + [Accepted] + [Told(0, id)];
  }

  /** The first connection tells id, then the second does. */
  lemma TwoConnections(id: Id) returns (ops: seq<Op>)
    requires id != []
    ensures Replay(ops) == Some(Registry([], map[id := 1], [Life(id, false), Life(id, false)]))
  {
    var before := OneConnection(id);
    var r := Registry([Some(1)], map[id := 0], [Life(id, false), Life([], false)]);
    StepTo(before, Registry([], map[id := 0], [Life(id, false)]), Accepted, r);
    OnlyOneTells(r, 1, id);
    assert map[id := 0][id := 1] == map[id := 1];
    assert r.lives[1 := Life(id, false)] == [Life(id, false), Life(id, false)];
    StepTo(before + [Accepted], r, Told(1, id), Apply(r, Told(1, id)));
    ops := before + [Accepted] + [Told(1, id)];
  }

  /** A device that connects again before its old connection closes is out of reach once the end of the old one is
      reported, as it is while a call still holds that one. */
  lemma ReconnectThenClose(id: Id) returns (ops: seq<Op>)
    requires id != []
    ensures Replay(ops).Some?
    ensures var r := Replay(ops).value; r.lives == [Life(id, true), Life(id, false)] && id !in r.byId
  {
    ops := TwoConnections(id);
    ReplaySnoc(ops, Closed(0));
    ops := ops + [Closed(0)];
  }
}
