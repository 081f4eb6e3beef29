/** A shift register that takes in symbols one at a time: it adds the symbol to what it holds and takes
    one step.  What is proved here holds of every addition and step that are linear. */
module LinearRegister {

  datatype Machine<!T> = Machine(zero: T, add: (T, T) -> T, step: T -> T)

  function Steps<T>(m: Machine<T>, x: T, n: nat): T
    decreases n
  {
    if n == 0 then x else m.step(Steps(m, x, n - 1))
  }

  /** The register, started at v, after it has taken in s. */
  function Register<T>(m: Machine<T>, v: T, s: seq<T>): T
    decreases |s|
  {
    if s == [] then v else m.step(m.add(Register(m, v, s[..|s| - 1]), s[|s| - 1]))
  }

  function Sum<T>(m: Machine<T>, s: seq<T>, t: seq<T>): (r: seq<T>)
    requires |s| == |t|
    ensures |r| == |s|
  {
    seq(|s|, i requires 0 <= i < |s| => m.add(s[i], t[i]))
  }

  ghost predicate AdditiveAt<T>(m: Machine<T>, x: T, y: T) {
    m.step(m.add(x, y)) == m.add(m.step(x), m.step(y))
  }

  ghost predicate InjectiveAt<T>(m: Machine<T>, x: T, y: T) {
    m.step(x) == m.step(y) ==> x == y
  }

  ghost predicate ExchangeAt<T>(m: Machine<T>, x: T, y: T, a: T, b: T) {
    m.add(m.add(x, y), m.add(a, b)) == m.add(m.add(x, a), m.add(y, b))
  }

  ghost predicate NeutralAt<T>(m: Machine<T>, x: T) {
    m.add(x, m.zero) == x && m.add(m.zero, x) == x
  }

  /** The step is additive and one to one, keeps zero, and the addition is commutative and associative
      with neutral element zero (the exchange law and the neutral laws together say so). */
  ghost predicate Linear<T(!new)>(m: Machine<T>) {
    && (forall x, y :: AdditiveAt(m, x, y))
    && (forall x, y :: InjectiveAt(m, x, y))
    && (forall x, y, a, b :: ExchangeAt(m, x, y, a, b))
    && (forall x :: NeutralAt(m, x))
    && m.step(m.zero) == m.zero
  }

  // ----- Repeated steps -----

  lemma {:induction false} StepsCompose<T(!new)>(m: Machine<T>, x: T, i: nat, n: nat)
    ensures Steps(m, x, i + n) == Steps(m, Steps(m, x, i), n)
    decreases n
  {
    if n != 0 {
      StepsCompose(m, x, i, n - 1);
    }
  }

  lemma {:induction false} StepsAdditive<T(!new)>(m: Machine<T>, x: T, y: T, n: nat)
    requires Linear(m)
    ensures Steps(m, m.add(x, y), n) == m.add(Steps(m, x, n), Steps(m, y, n))
    decreases n
  {
    if n != 0 {
      StepsAdditive(m, x, y, n - 1);
      assert AdditiveAt(m, Steps(m, x, n - 1), Steps(m, y, n - 1));
    }
  }

  lemma {:induction false} StepsInjective<T(!new)>(m: Machine<T>, x: T, y: T, n: nat)
    requires Linear(m) && Steps(m, x, n) == Steps(m, y, n)
    ensures x == y
    decreases n
  {
    if n != 0 {
      assert InjectiveAt(m, Steps(m, x, n - 1), Steps(m, y, n - 1));
      StepsInjective(m, x, y, n - 1);
    }
  }

  lemma {:induction false} StepsOfZero<T(!new)>(m: Machine<T>, n: nat)
    requires Linear(m)
    ensures Steps(m, m.zero, n) == m.zero
    decreases n
  {
    if n != 0 {
      StepsOfZero(m, n - 1);
    }
  }

  /** A register that holds anything but zero can never be stepped to zero. */
  lemma StepsKeepNonZero<T(!new)>(m: Machine<T>, x: T, n: nat)
    requires Linear(m)
    ensures Steps(m, x, n) == m.zero <==> x == m.zero
  {
    StepsOfZero(m, n);
    if Steps(m, x, n) == m.zero {
      StepsInjective(m, x, m.zero, n);
    }
  }

  // ----- The register over whole inputs -----

  lemma RegisterSnoc<T(!new)>(m: Machine<T>, v: T, s: seq<T>, b: T)
    ensures Register(m, v, s + [b]) == m.step(m.add(Register(m, v, s), b))
  {
    assert (s + [b])[..|s|] == s;
  }

  lemma {:induction false} RegisterConcat<T(!new)>(m: Machine<T>, v: T, s: seq<T>, t: seq<T>)
    ensures Register(m, v, s + t) == Register(m, Register(m, v, s), t)
    decreases |t|
  {
    if t == [] {
      assert s + t == s;
    } else {
      var front, b := t[..|t| - 1], t[|t| - 1];
      assert s + t == (s + front) + [b];
      RegisterSnoc(m, v, s + front, b);
      RegisterConcat(m, v, s, front);
    }
  }

  /** The register is additive in its start value and its input together. */
  lemma {:induction false} RegisterAdditive<T(!new)>(m: Machine<T>, v: T, w: T, s: seq<T>, t: seq<T>)
    requires Linear(m) && |s| == |t|
    ensures Register(m, m.add(v, w), Sum(m, s, t)) == m.add(Register(m, v, s), Register(m, w, t))
    decreases |s|
  {
    if s != [] {
      var n := |s| - 1;
      assert Sum(m, s, t)[..n] == Sum(m, s[..n], t[..n]);
      RegisterAdditive(m, v, w, s[..n], t[..n]);
      var x, y := Register(m, v, s[..n]), Register(m, w, t[..n]);
      assert ExchangeAt(m, x, y, s[n], t[n]);
      assert AdditiveAt(m, m.add(x, s[n]), m.add(y, t[n]));
    }
  }

  ghost predicate AllZero<T>(m: Machine<T>, e: seq<T>) {
    forall i :: 0 <= i < |e| ==> e[i] == m.zero
  }

  /** Zero symbols step the register and do nothing else. */
  lemma {:induction false} RegisterOfZeros<T(!new)>(m: Machine<T>, v: T, e: seq<T>)
    requires Linear(m) && AllZero(m, e)
    ensures Register(m, v, e) == Steps(m, v, |e|)
    decreases |e|
  {
    if e != [] {
      RegisterOfZeros(m, v, e[..|e| - 1]);
      assert NeutralAt(m, Register(m, v, e[..|e| - 1]));
    }
  }

  /** Zeros around an input never decide whether the zero-started register ends at zero. */
  lemma RegisterPadded<T(!new)>(m: Machine<T>, before: seq<T>, core: seq<T>, after: seq<T>)
    requires Linear(m) && AllZero(m, before) && AllZero(m, after)
    ensures Register(m, m.zero, before + core + after) == m.zero <==> Register(m, m.zero, core) == m.zero
  {
    RegisterConcat(m, m.zero, before + core, after);
    RegisterConcat(m, m.zero, before, core);
    RegisterOfZeros(m, m.zero, before);
    StepsOfZero(m, |before|);
    RegisterOfZeros(m, Register(m, m.zero, core), after);
    StepsKeepNonZero(m, Register(m, m.zero, core), |after|);
  }

  lemma RegisterOfOne<T(!new)>(m: Machine<T>, x: T)
    requires Linear(m)
    ensures Register(m, m.zero, [x]) == m.step(x)
  {
    RegisterSnoc(m, m.zero, [], x);
    assert [] + [x] == [x];
    assert NeutralAt(m, x);
  }

  lemma RegisterOfCore<T(!new)>(m: Machine<T>, x: T, zeros: seq<T>, y: T)
    requires Linear(m) && AllZero(m, zeros)
    ensures Register(m, m.zero, [x] + zeros + [y]) == m.step(m.add(Steps(m, x, |zeros| + 1), y))
  {
    RegisterSnoc(m, m.zero, [x] + zeros, y);
    RegisterConcat(m, m.zero, [x], zeros);
    RegisterOfOne(m, x);
    RegisterOfZeros(m, m.step(x), zeros);
    StepsCompose(m, x, 1, |zeros|);
    assert Steps(m, x, 1) == m.step(Steps(m, x, 0));
  }

  lemma CutAtTwo<T>(e: seq<T>, i: nat, j: nat)
    requires i < j < |e|
    ensures e == e[..i] + ([e[i]] + e[i + 1..j] + [e[j]]) + e[j + 1..]
  {
  }

  /** Two symbols among zeros: the first is stepped once for each place it is ahead of the second. */
  lemma RegisterOfTwo<T(!new)>(m: Machine<T>, e: seq<T>, i: nat, j: nat)
    requires Linear(m) && i < j < |e|
    requires AllZero(m, e[..i]) && AllZero(m, e[i + 1..j]) && AllZero(m, e[j + 1..])
    ensures Register(m, m.zero, e) == m.zero <==> m.step(m.add(Steps(m, e[i], j - i), e[j])) == m.zero
  {
    CutAtTwo(e, i, j);
    RegisterPadded(m, e[..i], [e[i]] + e[i + 1..j] + [e[j]], e[j + 1..]);
    RegisterOfCore(m, e[i], e[i + 1..j], e[j]);
  }

  // ----- Properties of symbols that the register carries along -----

  ghost predicate StepKeepsAt<T>(m: Machine<T>, h: T -> bool, x: T) {
    h(m.step(x)) == h(x)
  }

  ghost predicate SumSplitsAt<T>(m: Machine<T>, h: T -> bool, x: T, y: T) {
    h(m.add(x, y)) == (h(x) != h(y))
  }

  /** An odd number of the symbols of e have property h. */
  ghost predicate OddMany<T>(h: T -> bool, e: seq<T>)
    decreases |e|
  {
    e != [] && OddMany(h, e[..|e| - 1]) != h(e[|e| - 1])
  }

  lemma {:induction false} RegisterCarries<T(!new)>(m: Machine<T>, h: T -> bool, e: seq<T>)
    requires !h(m.zero)
    requires forall x :: StepKeepsAt(m, h, x)
    requires forall x, y :: SumSplitsAt(m, h, x, y)
    ensures h(Register(m, m.zero, e)) == OddMany(h, e)
    decreases |e|
  {
    if e != [] {
      var front := e[..|e| - 1];
      RegisterCarries(m, h, front);
      var sum := m.add(Register(m, m.zero, front), e[|e| - 1]);
      assert SumSplitsAt(m, h, Register(m, m.zero, front), e[|e| - 1]);
      assert StepKeepsAt(m, h, sum);
    }
  }
}
