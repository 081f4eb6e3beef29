/** How often a value occurs in a sequence. */
module Counting {

  function One(b: bool): nat {
    if b then 1 else 0
  }

  function Count<T(==)>(s: seq<T>, v: T): nat
    decreases |s|
  {
    if s == [] then 0 else Count(s[..|s| - 1], v) + One(s[|s| - 1] == v)
  }

  lemma CountSnoc<T>(s: seq<T>, x: T, v: T)
    ensures Count(s + [x], v) == Count(s, v) + One(x == v)
  {
    assert (s + [x])[..|s|] == s;
  }

  lemma {:induction false} CountIn<T>(s: seq<T>, v: T)
    ensures Count(s, v) > 0 <==> v in s
    decreases |s|
  {
    if s != [] {
      assert s == s[..|s| - 1] + [s[|s| - 1]];
      CountIn(s[..|s| - 1], v);
    }
  }

  lemma {:induction false} CountConcat<T>(s: seq<T>, t: seq<T>, v: T)
    ensures Count(s + t, v) == Count(s, v) + Count(t, v)
    decreases |t|
  {
    if t == [] {
      assert s + t == s;
    } else {
      var front, last := t[..|t| - 1], t[|t| - 1];
      CountConcat(s, front, v);
      assert s + t == (s + front) + [last];
      CountSnoc(s + front, last, v);
    }
  }
}
