/**
 Linear shift registers that take in one byte per eight (`span`) steps, over any type of
 register. The laws below are what the burst-error bound rests on.
 */
module ShiftRegister {
  type byte = bv8

  function Iterate<T>(f: T -> T, n: nat, x: T): T {
    if n == 0 then x else f(Iterate(f, n - 1, x))
  }

  /** `step` shifts once; `top`, `mid` and `low` place a byte in the highest, the
      middle and the lowest eight bits; `fits` says a register is in range; `span`
      is the number of steps per byte. */
  datatype Register<!T> = Register(
    step: T -> T, add: (T, T) -> T,
    top: byte -> T, mid: byte -> T, low: byte -> T, fits: T -> bool, span: nat)

  function Mix<T>(g: Register<T>, r: T, b: byte): T {
    g.add(r, g.top(b))
  }

  function ByteStep<T>(g: Register<T>, r: T, b: byte): T {
    Iterate(g.step, g.span, Mix(g, r, b))
  }

  function Run<T>(g: Register<T>, r: T, data: seq<byte>): T {
    if data == [] then r else ByteStep(g, Run(g, r, data[..|data| - 1]), data[|data| - 1])
  }

  function Packed<T>(g: Register<T>, r: T, a: byte, b: byte, c: byte): T {
    g.add(g.add(g.add(r, g.top(a)), g.mid(b)), g.low(c))
  }

  ghost predicate Closed<T(!new)>(g: Register<T>) {
    && (forall x :: g.fits(x) ==> g.fits(g.step(x)))
    && (forall x, b :: g.fits(x) ==> g.fits(Mix(g, x, b)))
    && (forall x, a, b, c :: g.fits(x) ==> g.fits(Packed(g, x, a, b, c)))
  }

  ghost predicate Injective<T(!new)>(g: Register<T>) {
    && (forall x, y :: g.fits(x) && g.fits(y) && g.step(x) == g.step(y) ==> x == y)
    && (forall x, y, b :: Mix(g, x, b) == Mix(g, y, b) ==> x == y)
    && (forall x, a, b, c, a', b', c' :: Packed(g, x, a, b, c) == Packed(g, x, a', b', c') ==>
          a == a' && b == b' && c == c')
  }

  ghost predicate StepIsAdditive<T(!new)>(g: Register<T>) {
    forall x, y {:trigger g.step(g.add(x, y))} :: g.step(g.add(x, y)) == g.add(g.step(x), g.step(y))
  }

  ghost predicate BytesClimb<T(!new)>(g: Register<T>) {
    && (forall b :: Iterate(g.step, g.span, g.mid(b)) == g.top(b))
    && (forall b :: Iterate(g.step, g.span, g.low(b)) == g.mid(b))
  }

  ghost predicate Lawful<T(!new)>(g: Register<T>) {
    Closed(g) && Injective(g) && StepIsAdditive(g) && BytesClimb(g)
  }

  // ----- Many steps ---------------------------------------------------------------

  lemma {:induction false} IterateFits<T(!new)>(g: Register<T>, n: nat, x: T)
    requires Closed(g) && g.fits(x)
    ensures g.fits(Iterate(g.step, n, x))
  {
    if n > 0 {
      IterateFits(g, n - 1, x);
    }
  }

  lemma {:induction false} IterateIsInjective<T(!new)>(g: Register<T>, n: nat, x: T, y: T)
    requires Closed(g) && Injective(g) && g.fits(x) && g.fits(y)
    requires Iterate(g.step, n, x) == Iterate(g.step, n, y)
    ensures x == y
  {
    if n > 0 {
      IterateFits(g, n - 1, x);
      IterateFits(g, n - 1, y);
      IterateIsInjective(g, n - 1, x, y);
    }
  }

  lemma {:induction false} IterateIsLinear<T(!new)>(g: Register<T>, n: nat, x: T, y: T)
    requires StepIsAdditive(g)
    ensures Iterate(g.step, n, g.add(x, y)) == g.add(Iterate(g.step, n, x), Iterate(g.step, n, y))
  {
    if n > 0 {
      IterateIsLinear(g, n - 1, x, y);
    }
  }

  lemma {:induction false} IterateComposes<T>(f: T -> T, m: nat, n: nat, x: T)
    ensures Iterate(f, m + n, x) == Iterate(f, m, Iterate(f, n, x))
  {
    if m > 0 {
      IterateComposes(f, m - 1, n, x);
    }
  }

  // ----- Whole messages --------------------------------------------------------------

  lemma {:induction false} RunConcat<T>(g: Register<T>, r: T, p: seq<byte>, q: seq<byte>)
    ensures Run(g, r, p + q) == Run(g, Run(g, r, p), q)
  {
    if q == [] {
      assert p + q == p;
    } else {
      var k := |q| - 1;
      RunConcat(g, r, p, q[..k]);
      assert (p + q)[..|p + q| - 1] == p + q[..k];
    }
  }

  lemma {:induction false} RunFits<T(!new)>(g: Register<T>, r: T, data: seq<byte>)
    requires Closed(g) && g.fits(r)
    ensures g.fits(Run(g, r, data))
  {
    if data != [] {
      var k := |data| - 1;
      RunFits(g, r, data[..k]);
      IterateFits(g, g.span, Mix(g, Run(g, r, data[..k]), data[k]));
    }
  }

  /** Equal data takes different registers to different registers. */
  lemma {:induction false} RunIsInjective<T(!new)>(g: Register<T>, r: T, r': T, data: seq<byte>)
    requires Closed(g) && Injective(g) && g.fits(r) && g.fits(r')
    requires Run(g, r, data) == Run(g, r', data)
    ensures r == r'
  {
    if data != [] {
      var k := |data| - 1;
      RunFits(g, r, data[..k]);
      RunFits(g, r', data[..k]);
      var x, y := Run(g, r, data[..k]), Run(g, r', data[..k]);
      IterateIsInjective(g, g.span, Mix(g, x, data[k]), Mix(g, y, data[k]));
      RunIsInjective(g, r, r', data[..k]);
    }
  }

  // ----- Three bytes at once -------------------------------------------------------------

  /** Mixing a byte in late equals mixing it in early, further down. */
  lemma LateIsEarly<T(!new)>(g: Register<T>, n: nat, x: T, b: byte, early: T)
    requires StepIsAdditive(g) && Iterate(g.step, n, early) == g.top(b)
    ensures ByteStep(g, Iterate(g.step, n, x), b) == Iterate(g.step, g.span + n, g.add(x, early))
  {
    IterateIsLinear(g, n, x, early);
    IterateComposes(g.step, g.span, n, g.add(x, early));
  }

  lemma RunOfThree<T(!new)>(g: Register<T>, r: T, u: seq<byte>)
    requires StepIsAdditive(g) && BytesClimb(g) && |u| == 3
    ensures Run(g, r, u) == Iterate(g.step, g.span + (g.span + g.span), Packed(g, r, u[0], u[1], u[2]))
  {
    var x := Mix(g, r, u[0]);
    assert u[..2][..1] == u[..1] && u[..1][..0] == [];
    assert Run(g, r, u[..1]) == Iterate(g.step, g.span, x);
    LateIsEarly(g, g.span, x, u[1], g.mid(u[1]));
    assert Run(g, r, u[..2]) == Iterate(g.step, g.span + g.span, g.add(x, g.mid(u[1])));
    IterateComposes(g.step, g.span, g.span, g.low(u[2]));
    LateIsEarly(g, g.span + g.span, g.add(x, g.mid(u[1])), u[2], g.low(u[2]));
  }

  lemma ThreeBytesArePacked<T(!new)>(g: Register<T>, r: T, u: seq<byte>, v: seq<byte>)
    requires StepIsAdditive(g) && BytesClimb(g) && |u| == |v| == 3
    requires Run(g, r, u) == Run(g, r, v)
    ensures Iterate(g.step, g.span + (g.span + g.span), Packed(g, r, u[0], u[1], u[2])) ==
      Iterate(g.step, g.span + (g.span + g.span), Packed(g, r, v[0], v[1], v[2]))
  {
    RunOfThree(g, r, u);
    RunOfThree(g, r, v);
  }

  lemma PackedBytesAreTold<T(!new)>(g: Register<T>, r: T, u: seq<byte>, v: seq<byte>)
    requires Closed(g) && Injective(g) && g.fits(r) && |u| == |v| == 3
    requires Iterate(g.step, g.span + (g.span + g.span), Packed(g, r, u[0], u[1], u[2])) ==
      Iterate(g.step, g.span + (g.span + g.span), Packed(g, r, v[0], v[1], v[2]))
    ensures u == v
  {
    IterateIsInjective(g, g.span + (g.span + g.span), Packed(g, r, u[0], u[1], u[2]), Packed(g, r, v[0], v[1], v[2]));
  }

  /** Two messages that differ only inside a window of at most three adjacent
      bytes end in the same register only if they are equal. */
  lemma BurstsAreTold<T(!new)>(g: Register<T>, r: T, before: seq<byte>, u: seq<byte>, v: seq<byte>, after: seq<byte>)
    requires Lawful(g) && g.fits(r) && |u| == |v| <= 3
    requires Run(g, r, before + u + after) == Run(g, r, before + v + after)
    ensures u == v
  {
    var s := Run(g, r, before);
    RunFits(g, r, before);
    RunConcat(g, r, before + u, after);
    RunConcat(g, r, before + v, after);
    RunConcat(g, r, before, u);
    RunConcat(g, r, before, v);
    RunFits(g, s, u);
    RunFits(g, s, v);
    RunIsInjective(g, Run(g, s, u), Run(g, s, v), after);
    var pad := seq(3 - |u|, i => 0 as byte);
    RunConcat(g, s, u, pad);
    RunConcat(g, s, v, pad);
    ThreeBytesArePacked(g, s, u + pad, v + pad);
    PackedBytesAreTold(g, s, u + pad, v + pad);
    assert u == (u + pad)[..|u|] && v == (v + pad)[..|v|];
  }
}
