/** A bounded set that forgets the value touched longest ago: a list, most recent first, and a map from each
    value to its place in the list. */
module Lru {

  // ----- What it stands for -----

  /** xs without v. */
  function Without<T(==)>(xs: seq<T>, v: T): (r: seq<T>)
    ensures |r| <= |xs|
  {
    if xs == [] then [] else if xs[0] == v then Without(xs[1..], v) else [xs[0]] + Without(xs[1..], v)
  }

  function Take<T>(xs: seq<T>, n: nat): seq<T> {
    if n < |xs| then xs[..n] else xs
  }

  /** v touched: in front of all the others. */
  function ToFront<T(==)>(xs: seq<T>, v: T): seq<T> {
    [v] + Without(xs, v)
  }

  predicate Distinct<T(==)>(xs: seq<T>) {
    forall i, j :: 0 <= i < j < |xs| ==> xs[i] != xs[j]
  }

  /** The values of history, each once, in the order of their last touch, latest first. */
  function Recency<T(==)>(history: seq<T>): seq<T>
    decreases |history|
  {
    if history == [] then []
    else ToFront(Recency(history[..|history| - 1]), history[|history| - 1])
  }

  lemma {:induction false} WithoutMembers<T>(xs: seq<T>, v: T)
    ensures forall x :: x in Without(xs, v) <==> x in xs && x != v
  {
    if xs != [] {
      WithoutMembers(xs[1..], v);
      assert xs == [xs[0]] + xs[1..];
    }
  }

  lemma {:induction false} WithoutAbsent<T>(xs: seq<T>, v: T)
    requires v !in xs
    ensures Without(xs, v) == xs
  {
    if xs != [] {
      WithoutAbsent(xs[1..], v);
    }
  }

  /** Taking a distinct list apart at v. */
  lemma {:induction false} WithoutAt<T>(xs: seq<T>, i: nat)
    requires Distinct(xs) && i < |xs|
    ensures Without(xs, xs[i]) == xs[..i] + xs[i + 1..]
    decreases |xs|
  {
    if i == 0 {
      assert xs[0] !in xs[1..];
      WithoutAbsent(xs[1..], xs[0]);
    } else {
      WithoutAt(xs[1..], i - 1);
      assert xs[1..][..i - 1] == xs[1..i] && xs[1..][i..] == xs[i + 1..];
      assert [xs[0]] + xs[1..i] == xs[..i];
    }
  }

  lemma ToFrontDistinct<T>(xs: seq<T>, v: T)
    requires Distinct(xs)
    ensures Distinct(ToFront(xs, v))
  {
    WithoutMembers(xs, v);
    if v in xs {
      var i :| 0 <= i < |xs| && xs[i] == v;
      WithoutAt(xs, i);
    } else {
      WithoutAbsent(xs, v);
    }
  }

  lemma {:induction false} RecencyDistinct<T>(history: seq<T>)
    ensures Distinct(Recency(history))
    decreases |history|
  {
    if history != [] {
      var n := |history| - 1;
      RecencyDistinct(history[..n]);
      ToFrontDistinct(Recency(history[..n]), history[n]);
    }
  }

  lemma {:induction false} RecencyMembers<T>(history: seq<T>, x: T)
    ensures x in Recency(history) <==> x in history
    decreases |history|
  {
    if history != [] {
      var n := |history| - 1;
      RecencyMembers(history[..n], x);
      WithoutMembers(Recency(history[..n]), history[n]);
      assert history == history[..n] + [history[n]];
    }
  }

  lemma ToFrontAt<T>(xs: seq<T>, i: nat)
    requires Distinct(xs) && i < |xs|
    ensures ToFront(xs, xs[i]) == [xs[i]] + (xs[..i] + xs[i + 1..])
  {
    WithoutAt(xs, i);
  }

  lemma ToFrontNew<T>(xs: seq<T>, v: T)
    requires v !in xs
    ensures ToFront(xs, v) == [v] + xs
  {
    WithoutAbsent(xs, v);
  }

  lemma TakeMoved<T>(xs: seq<T>, i: nat, n: nat)
    requires i < n < |xs|
    ensures Take([xs[i]] + (xs[..n][..i] + xs[..n][i + 1..]), n) == Take([xs[i]] + (xs[..i] + xs[i + 1..]), n)
  {
  }

  lemma TakeLate<T>(xs: seq<T>, i: nat, n: nat)
    requires n <= i < |xs|
    ensures Take([xs[i]] + xs[..n], n) == Take([xs[i]] + (xs[..i] + xs[i + 1..]), n)
  {
  }

  lemma TakeNew<T>(xs: seq<T>, v: T, n: nat)
    requires n < |xs|
    ensures Take([v] + xs[..n], n) == Take([v] + xs, n)
  {
  }

  /** Only what is kept decides what is kept next. */
  lemma TakeToFront<T>(xs: seq<T>, v: T, n: nat)
    requires Distinct(xs)
    ensures Take(ToFront(Take(xs, n), v), n) == Take(ToFront(xs, v), n)
  {
    if n >= |xs| {
    } else if v in xs {
      var i :| 0 <= i < |xs| && xs[i] == v;
      ToFrontAt(xs, i);
      if i < n {
        assert xs[..n][i] == v;
        ToFrontAt(xs[..n], i);
        TakeMoved(xs, i, n);
      } else {
        ToFrontNew(xs[..n], v);
        TakeLate(xs, i, n);
      }
    } else {
      ToFrontNew(xs, v);
      ToFrontNew(xs[..n], v);
      TakeNew(xs, v, n);
    }
  }

  // ----- What recency means -----

  /** The last position of v in history. */
  function LastAt<T(==)>(history: seq<T>, v: T): (i: nat)
    requires v in history
    ensures i < |history| && history[i] == v && v !in history[i + 1..]
    decreases |history|
  {
    var n := |history| - 1;
    if history[n] == v then n
    else
      assert history == history[..n] + [history[n]];
      var i := LastAt(history[..n], v);
      assert history[i + 1..] == history[..n][i + 1..] + [history[n]];
      i
  }

  lemma NoneLater<T>(history: seq<T>, v: T, i: nat)
    requires i < |history| && v !in history[i + 1..]
    ensures forall k :: i < k < |history| ==> history[k] != v
  {
    forall k | i < k < |history|
      ensures history[k] != v
    {
      assert history[k] == history[i + 1..][k - i - 1];
    }
  }

  lemma LastAtUnique<T>(history: seq<T>, v: T, i: nat)
    requires i < |history| && history[i] == v && v !in history[i + 1..]
    ensures LastAt(history, v) == i
  {
    NoneLater(history, v, i);
    NoneLater(history, v, LastAt(history, v));
  }

  /** Where the value that is at place k after v is taken out was before. */
  lemma PlaceBefore<T>(xs: seq<T>, v: T, k: nat) returns (p: nat)
    requires Distinct(xs) && k < |Without(xs, v)|
    ensures p < |xs| && xs[p] == Without(xs, v)[k] && xs[p] != v
    ensures k + 1 == p + if v in xs[..p] then 0 else 1
  {
    if v in xs {
      var i :| 0 <= i < |xs| && xs[i] == v;
      WithoutAt(xs, i);
      p := if k < i then k else k + 1;
      if k >= i {
        assert xs[..p][i] == v;
      }
    } else {
      WithoutAbsent(xs, v);
      p := k;
    }
  }

  lemma RecencySnoc<T>(front: seq<T>, last: T)
    ensures Recency(front + [last]) == [last] + Without(Recency(front), last)
  {
    assert (front + [last])[..|front|] == front;
  }

  lemma LastAtSnoc<T>(front: seq<T>, last: T, v: T)
    requires v in front && v != last
    ensures v in front + [last] && LastAt(front + [last], v) == LastAt(front, v)
  {
    var at := LastAt(front, v);
    assert (front + [last])[at + 1..] == front[at + 1..] + [last];
    LastAtUnique(front + [last], v, at);
  }

  /** The list is in the order of last touches. */
  lemma {:induction false} RecencyOrdered<T>(history: seq<T>, u: T, v: T, i: nat, j: nat)
    requires i < j < |Recency(history)| && u == Recency(history)[i] && v == Recency(history)[j]
    ensures u in history && v in history && LastAt(history, u) > LastAt(history, v)
    decreases |history|
  {
    var front, last := history[..|history| - 1], history[|history| - 1];
    assert history == front + [last];
    RecencySnoc(front, last);
    var before := Recency(front);
    RecencyDistinct(front);
    var q := PlaceBefore(before, last, j - 1);
    RecencyMembers(front, v);
    assert v == before[q];
    LastAtSnoc(front, last, v);
    if i == 0 {
      LastAtUnique(history, last, |front|);
    } else {
      var p := OrderBefore(before, last, i - 1, j - 1, q);
      RecencyOrdered(front, u, v, p, q);
      LastAtSnoc(front, last, u);
    }
  }

  /** Taking one value out keeps the order of the others. */
  lemma OrderBefore<T>(xs: seq<T>, v: T, i: nat, j: nat, q: nat) returns (p: nat)
    requires Distinct(xs) && i < j < |Without(xs, v)| && q < |xs| && xs[q] == Without(xs, v)[j]
    ensures p < q && xs[p] == Without(xs, v)[i] && xs[p] != v
  {
    WithoutMembers(xs, v);
    p := PlaceBefore(xs, v, i);
    var k := PlaceBefore(xs, v, j);
    assert k == q;
  }

  function Values<T(==, !new)>(s: seq<T>): (r: set<T>)
    ensures forall x :: x in r <==> x in s
  {
    set x | x in s
  }

  /** What was touched since the last touch of v. */
  function Since<T(==)>(history: seq<T>, v: T): seq<T>
    requires v in history
  {
    history[LastAt(history, v) + 1..]
  }

  /** How many distinct values that are. */
  function OthersSince<T(==, !new)>(history: seq<T>, v: T): nat
    requires v in history
  {
    |Values(Since(history, v))|
  }

  lemma SinceGrows<T>(front: seq<T>, last: T, v: T)
    requires v in front && v != last
    ensures v in front + [last] && Since(front + [last], v) == Since(front, v) + [last]
  {
    LastAtSnoc(front, last, v);
  }

  lemma ValuesSnoc<T(!new)>(s: seq<T>, x: T)
    ensures |Values(s + [x])| == |Values(s)| + if x in s then 0 else 1
  {
    assert Values(s + [x]) == Values(s) + {x};
    AddOne(Values(s), x);
  }

  lemma OthersSinceStep<T(!new)>(front: seq<T>, last: T, v: T)
    requires v in front && v != last
    ensures v in front + [last]
    ensures OthersSince(front + [last], v) == OthersSince(front, v) + if last in Since(front, v) then 0 else 1
  {
    SinceGrows(front, last, v);
    ValuesSnoc(Since(front, v), last);
  }

  lemma AddOne<T>(s: set<T>, x: T)
    ensures |s + {x}| == |s| + if x in s then 0 else 1
  {
    if x in s {
      assert s + {x} == s;
    }
  }

  /** Ahead in the list is touched since. */
  lemma AheadMeansSince<T>(history: seq<T>, u: T, v: T, p: nat)
    requires p < |Recency(history)| && v == Recency(history)[p] && u != v
    ensures v in history
    ensures u in Recency(history)[..p] <==> u in Since(history, v)
  {
    var r := Recency(history);
    RecencyMembers(history, u);
    RecencyMembers(history, v);
    var at := LastAt(history, v);
    if u in r[..p] {
      var i :| 0 <= i < p && r[i] == u;
      RecencyOrdered(history, u, v, i, p);
      assert history[at + 1..][LastAt(history, u) - at - 1] == u;
    }
    if u in history[at + 1..] {
      var m :| 0 <= m < |history[at + 1..]| && history[at + 1..][m] == u;
      assert history[at + 1 + m] == u;
      NoneLater(history, u, LastAt(history, u));
      var i :| 0 <= i < |r| && r[i] == u;
      if i > p {
        RecencyOrdered(history, v, u, p, i);
      }
    }
  }

  /** The place of a value in the list is the number of distinct others touched since its last touch. */
  lemma {:induction false} PlaceIsOthersSince<T(!new)>(history: seq<T>, v: T, k: nat)
    requires k < |Recency(history)| && v == Recency(history)[k]
    ensures v in history && k == OthersSince(history, v)
    decreases |history|
  {
    var front, last := history[..|history| - 1], history[|history| - 1];
    assert history == front + [last];
    RecencySnoc(front, last);
    if k == 0 {
      LastAtUnique(history, last, |front|);
      assert Values(history[|front| + 1..]) == {};
    } else {
      RecencyDistinct(front);
      var p := PlaceBefore(Recency(front), last, k - 1);
      PlaceIsOthersSince(front, v, p);
      AheadMeansSince(front, last, v, p);
      OthersSinceStep(front, last, v);
    }
  }

  /** v is among the n most recent exactly when it was touched and fewer than n distinct others were since. */
  lemma KeptIff<T(!new)>(history: seq<T>, v: T, n: nat)
    ensures v in Take(Recency(history), n) <==> v in history && OthersSince(history, v) < n
  {
    var r := Recency(history);
    RecencyMembers(history, v);
    RecencyDistinct(history);
    if v in history {
      var k :| 0 <= k < |r| && r[k] == v;
      PlaceIsOthersSince(history, v, k);
      if k < n {
        assert Take(r, n)[k] == v;
      }
    }
  }

  // ----- As it is kept -----

  /** A place in the list; an iterator to it is a reference. */
  class Node<T> {
    const v: T

    constructor (v: T)
      ensures this.v == v
    {
      this.v := v;
    }
  }

  function Vals<T>(l: seq<Node<T>>): (r: seq<T>)
    ensures |r| == |l|
  {
    seq(|l|, i requires 0 <= i < |l| => l[i].v)
  }

  lemma NodesDistinct<T>(l: seq<Node<T>>)
    requires Distinct(Vals(l))
    ensures Distinct(l)
  {
    forall a, b | 0 <= a < b < |l|
      ensures l[a] != l[b]
    {
      assert Vals(l)[a] != Vals(l)[b];
    }
  }

  lemma ValsCut<T>(l: seq<Node<T>>, i: nat)
    requires i < |l|
    ensures Vals(l[..i] + l[i + 1..]) == Vals(l)[..i] + Vals(l)[i + 1..]
  {
  }

  lemma ValsWithout<T>(l: seq<Node<T>>, i: nat)
    requires i < |l| && Distinct(Vals(l))
    ensures Without(l, l[i]) == l[..i] + l[i + 1..]
    ensures Vals(Without(l, l[i])) == Without(Vals(l), l[i].v)
  {
    NodesDistinct(l);
    WithoutAt(l, i);
    WithoutAt(Vals(l), i);
    ValsCut(l, i);
  }

  lemma TakeDistinct<T>(xs: seq<T>, n: nat)
    requires Distinct(xs)
    ensures Distinct(Take(xs, n))
  {
  }

  /** The values of l are distinct, and m leads from exactly them to their places in l. */
  ghost predicate Links<T>(l: seq<Node<T>>, m: map<T, Node<T>>) {
    && Distinct(Vals(l))
    && (forall i :: 0 <= i < |l| ==> l[i].v in m && m[l[i].v] == l[i])
    && (forall k :: k in m ==> m[k] in l && m[k].v == k)
    && |m| == |l|
  }

  lemma RelinkedAsNew<T>(l: seq<Node<T>>, m: map<T, Node<T>>, node: Node<T>)
    requires Links(l, m) && node.v !in m
    ensures Links([node] + l, m[node.v := node]) && Vals([node] + l) == [node.v] + Vals(l)
  {
    forall i | 0 <= i < |l|
      ensures Vals(l)[i] != node.v
    {
      assert l[i].v in m;
    }
    assert Vals([node] + l) == [node.v] + Vals(l);
    assert ([node] + l)[0] == node;
    forall k | k in m
      ensures m[k] in [node] + l
    {
      var i :| 0 <= i < |l| && l[i] == m[k];
      assert ([node] + l)[i + 1] == m[k];
    }
  }

  lemma LinksCut<T>(l: seq<Node<T>>, m: map<T, Node<T>>, i: nat)
    requires Links(l, m) && i < |l|
    ensures var rest := l[..i] + l[i + 1..];
            Links(rest, m - {l[i].v}) && Vals(rest) == Without(Vals(l), l[i].v)
  {
    var rest, v := l[..i] + l[i + 1..], l[i].v;
    ValsCut(l, i);
    WithoutAt(Vals(l), i);
    forall j | 0 <= j < |rest|
      ensures rest[j].v in m && m[rest[j].v] == rest[j] && rest[j].v != v
    {
      assert Vals(l)[i] != Vals(l)[if j < i then j else j + 1];
      assert rest[j] == l[if j < i then j else j + 1];
    }
    forall k | k in m && k != v
      ensures m[k] in rest
    {
      var j :| 0 <= j < |l| && l[j] == m[k];
      assert rest[if j < i then j else j - 1] == m[k];
    }
    assert v in m;
  }

  lemma RelinkedInPlaceOf<T>(rest: seq<Node<T>>, m: map<T, Node<T>>, node: Node<T>)
    requires node.v in m && Links(rest, m - {node.v})
    ensures Links([node] + rest, m[node.v := node]) && Vals([node] + rest) == [node.v] + Vals(rest)
  {
    RelinkedAsNew(rest, m - {node.v}, node);
    assert (m - {node.v})[node.v := node] == m[node.v := node];
  }

  type Int32 = i: int | -0x8000_0000 <= i < 0x8000_0000

  class Cache<T(==)> {
    const cap: Int32
    var l: seq<Node<T>>
    var m: map<T, Node<T>>

    /** The bound that the comparison of an unsigned size with the signed cap amounts to. */
    function Limit(): (n: nat)
      ensures n < 0x1_0000_0000_0000_0000 && (n - cap) % 0x1_0000_0000_0000_0000 == 0
    {
      if cap >= 0 then cap else 0x1_0000_0000_0000_0000 + cap
    }

    function Contents(): seq<T>
      reads this
    {
      Vals(l)
    }

    /** The list has no value twice, and the map has exactly the values of the list, each leading to the place
        in the list that holds it. */
    ghost predicate Linked()
      reads this
    {
      Links(l, m)
    }

    ghost predicate Valid()
      reads this
    {
      Linked() && |l| <= Limit()
    }

    constructor (cap: Int32)
      ensures Valid() && Contents() == [] && this.cap == cap
    {
      this.cap := cap;
      l, m := [], map[];
    }

    lemma InMap(v: T)
      requires Linked()
      ensures v in m <==> v in Contents()
    {
      if v in m {
        var i :| 0 <= i < |l| && l[i] == m[v];
        assert Contents()[i] == v;
      }
      if v in Contents() {
        var i :| 0 <= i < |l| && Contents()[i] == v;
        assert l[i].v in m;
      }
    }

    /** Whether v is there; if so it is touched. */
    method Exist(v: T) returns (found: bool)
      requires Valid()
      modifies this`l
      ensures Valid()
      ensures found <==> v in old(Contents())
      ensures Contents() == if found then ToFront(old(Contents()), v) else old(Contents())
    {
      InMap(v);
      if v !in m {
        return false;
      }
      var it := m[v];
      ghost var i :| 0 <= i < |l| && l[i] == it;
      ValsWithout(l, i);
      ToFrontDistinct(Contents(), v);
      l := [it] + Without(l, it);
      assert Contents() == ToFront(old(Contents()), v);
      return true;
    }

    method PushFront(v: T)
      requires Linked()
      modifies this`l, this`m
      ensures Linked() && Contents() == ToFront(old(Contents()), v)
      ensures |l| <= old(|l|) + 1
    {
      InMap(v);
      var node := new Node(v);
      if v in m {
        ghost var i :| 0 <= i < |l| && l[i] == m[v];
        ValsWithout(l, i);
        LinksCut(l, m, i);
        l := Without(l, m[v]);
        RelinkedInPlaceOf(l, m, node);
      } else {
        WithoutAbsent(Contents(), v);
        RelinkedAsNew(l, m, node);
      }
      l := [node] + l;
      m := m[v := node];
    }

    /** v goes to the front; what was touched longest ago goes out if there is one too many. */
    method Put(v: T)
      requires Valid()
      modifies this`l, this`m
      ensures Valid()
      ensures Contents() == Take(ToFront(old(Contents()), v), Limit())
    {
      PushFront(v);
      if |m| > Limit() {
        ghost var all := Contents();
        TakeDistinct(all, Limit());
        forall i | 0 <= i < |l| - 1
          ensures l[i].v != l[|l| - 1].v
        {
          assert all[i] != all[|l| - 1];
        }
        m := m - {l[|l| - 1].v};
        l := l[..|l| - 1];
        assert Contents() == Take(all, Limit());
      }
    }
  }
}
