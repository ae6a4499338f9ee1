/** The algebra of a linear shift register, for any register type.

    A register is clocked once per input symbol after the symbol has been added to it. When clocking
    is linear over that addition, a register run over a concatenation splits into two independent runs;
    when clocking also loses nothing, an error in one input can never be hidden by the rest.
  */
module ShiftRegister {

  datatype Register<!T, !B> = Register(add: (T, T) -> T, load: B -> T, clock: T -> T)

  /** Addition can be regrouped and undone, and clocking is linear over it and injective. */
  ghost predicate Lawful<T(!new), B>(m: Register<T, B>) {
    && (forall a, b, c :: Regroups(m.add, a, b, c))
    && (forall a, b :: Undoes(m.add, a, b))
    && (forall a, b, c :: Cancels(m.add, a, b, c))
    && LinearStep(m.add, m.clock)
    && InjectiveStep(m.clock)
  }

  ghost predicate Regroups<T>(add: (T, T) -> T, a: T, b: T, c: T) {
    add(add(a, b), c) == add(a, add(b, c))
  }

  ghost predicate Undoes<T>(add: (T, T) -> T, a: T, b: T) {
    add(add(a, b), b) == a
  }

  ghost predicate Cancels<T>(add: (T, T) -> T, a: T, b: T, c: T) {
    add(a, b) == add(a, c) ==> b == c
  }

  ghost predicate Linear<T>(add: (T, T) -> T, step: T -> T, a: T, b: T) {
    step(add(a, b)) == add(step(a), step(b))
  }

  ghost predicate LinearStep<T(!new)>(add: (T, T) -> T, step: T -> T) {
    forall a, b :: Linear(add, step, a, b)
  }

  ghost predicate Injective<T>(step: T -> T, a: T, b: T) {
    step(a) == step(b) ==> a == b
  }

  ghost predicate InjectiveStep<T(!new)>(step: T -> T) {
    forall a, b :: Injective(step, a, b)
  }

  function Iterate<T>(step: T -> T, r: T, n: nat): T
    decreases n
  {
    if n == 0 then r else Iterate(step, step(r), n - 1)
  }

  /** The register after reading the symbols of `s`. */
  function Run<T, B>(m: Register<T, B>, r: T, s: seq<B>): T
    decreases |s|
  {
    if s == [] then r else Run(m, m.clock(m.add(r, m.load(s[0]))), s[1..])
  }

  /** The register after `n` clocks with no input. */
  function Shift<T, B>(m: Register<T, B>, r: T, n: nat): T {
    Iterate(m.clock, r, n)
  }

  lemma {:induction false} IterateLinear<T(!new)>(add: (T, T) -> T, step: T -> T, a: T, b: T, n: nat)
    requires LinearStep(add, step)
    ensures Iterate(step, add(a, b), n) == add(Iterate(step, a, n), Iterate(step, b, n))
    decreases n
  {
    if n != 0 {
      assert Linear(add, step, a, b);
      IterateLinear(add, step, step(a), step(b), n - 1);
    }
  }

  lemma {:induction false} IterateInjective<T(!new)>(step: T -> T, a: T, b: T, n: nat)
    requires InjectiveStep(step)
    requires Iterate(step, a, n) == Iterate(step, b, n)
    ensures a == b
    decreases n
  {
    if n != 0 {
      IterateInjective(step, step(a), step(b), n - 1);
      assert Injective(step, a, b);
    }
  }

  lemma {:induction false} RunAppend<T, B>(m: Register<T, B>, r: T, s: seq<B>, t: seq<B>)
    ensures Run(m, r, s + t) == Run(m, Run(m, r, s), t)
    decreases |s|
  {
    if s == [] {
      assert s + t == t;
    } else {
      assert (s + t)[1..] == s[1..] + t;
      RunAppend(m, m.clock(m.add(r, m.load(s[0]))), s[1..], t);
    }
  }

  /** Adding `a` to the register before reading `s` adds `a`, shifted along `s`, to it after. */
  lemma {:induction false} RunLinear<T(!new), B>(m: Register<T, B>, a: T, b: T, s: seq<B>)
    requires Lawful(m)
    ensures Run(m, m.add(a, b), s) == m.add(Shift(m, a, |s|), Run(m, b, s))
    decreases |s|
  {
    if s != [] {
      var x := m.load(s[0]);
      assert Regroups(m.add, a, b, x);
      assert Linear(m.add, m.clock, a, m.add(b, x));
      RunLinear(m, m.clock(a), m.clock(m.add(b, x)), s[1..]);
    }
  }

  lemma {:induction false} RunInjective<T(!new), B>(m: Register<T, B>, a: T, b: T, s: seq<B>)
    requires Lawful(m)
    requires Run(m, a, s) == Run(m, b, s)
    ensures a == b
    decreases |s|
  {
    if s != [] {
      var x := m.load(s[0]);
      RunInjective(m, m.clock(m.add(a, x)), m.clock(m.add(b, x)), s[1..]);
      assert Injective(m.clock, m.add(a, x), m.add(b, x));
      assert Undoes(m.add, a, x) && Undoes(m.add, b, x);
    }
  }

  /** The digest of `s`: the register started at `ones`, with `ones` added at the end. */
  function Digest<T, B>(m: Register<T, B>, ones: T, s: seq<B>): T {
    m.add(Run(m, ones, s), ones)
  }

  lemma DigestAppend<T(!new), B>(m: Register<T, B>, ones: T, a: seq<B>, b: seq<B>)
    requires Lawful(m)
    ensures Digest(m, ones, a + b) == m.add(Shift(m, Digest(m, ones, a), |b|), Digest(m, ones, b))
  {
    var d := Digest(m, ones, a);
    RunAppend(m, ones, a, b);
    assert Undoes(m.add, Run(m, ones, a), ones);
    RunLinear(m, d, ones, b);
    assert Regroups(m.add, Shift(m, d, |b|), Run(m, ones, b), ones);
  }

  /** A joined digest determines either half's digest from the other's. */
  lemma JoinInjective<T(!new), B>(m: Register<T, B>, p: T, q: T, s: T, t: T, n: nat)
    requires Lawful(m)
    requires m.add(Shift(m, p, n), s) == m.add(Shift(m, q, n), t)
    ensures p == q <==> s == t
  {
    var p', q' := Shift(m, p, n), Shift(m, q, n);
    if s == t {
      assert Undoes(m.add, p', s) && Undoes(m.add, q', s);
      IterateInjective(m.clock, p, q, n);
    }
    assert Cancels(m.add, p', s, t);
  }

  /** Two inputs that differ in one symbol have equal digests only when the symbols load alike. */
  lemma DigestDetects<T(!new), B>(m: Register<T, B>, ones: T, a: seq<B>, x: B, y: B, b: seq<B>)
    requires Lawful(m)
    requires Digest(m, ones, a + [x] + b) == Digest(m, ones, a + [y] + b)
    ensures m.load(x) == m.load(y)
  {
    var r := Run(m, ones, a);
    assert Undoes(m.add, Run(m, ones, a + [x] + b), ones) && Undoes(m.add, Run(m, ones, a + [y] + b), ones);
    RunMiddle(m, ones, a, x, b);
    RunMiddle(m, ones, a, y, b);
    RunInjective(m, m.clock(m.add(r, m.load(x))), m.clock(m.add(r, m.load(y))), b);
    assert Injective(m.clock, m.add(r, m.load(x)), m.add(r, m.load(y)));
    assert Cancels(m.add, r, m.load(x), m.load(y));
  }

  lemma RunMiddle<T, B>(m: Register<T, B>, r: T, a: seq<B>, x: B, b: seq<B>)
    ensures Run(m, r, a + [x] + b) == Run(m, m.clock(m.add(Run(m, r, a), m.load(x))), b)
  {
    RunAppend(m, r, a + [x], b);
    RunAppend(m, r, a, [x]);
    assert [x][1..] == [];
  }
}
