/** The recursive Fourier transform (`fft`) and the naive one (`dft`) over exact reals, with the shared table of sines
and cosines as a table of roots of unity. */
module Fourier {
  import opened Arithmetic

  datatype Complex = Complex(re: real, im: real)

  function Add(a: Complex, b: Complex): Complex {
    Complex(a.re + b.re, a.im + b.im)
  }

  function Mul(a: Complex, b: Complex): Complex {
    Complex(a.re * b.re - a.im * b.im, a.re * b.im + a.im * b.re)
  }

  function Scale(x: real, a: Complex): Complex {
    Complex(x * a.re, x * a.im)
  }

  function Negate(a: Complex): Complex {
    Complex(-a.re, -a.im)
  }

  // ---------------------------------------------------------------- Roots of unity

  datatype Table = Table(cosVals: seq<real>, sinVals: seq<real>)

  function Size(t: Table): nat {
    |t.cosVals|
  }

  const ZERO := Complex(0.0, 0.0)
  const ONE := Complex(1.0, 0.0)

  function Entry(t: Table, i: nat): Complex {
    if i < |t.cosVals| && i < |t.sinVals| then Complex(t.cosVals[i], -t.sinVals[i]) else ZERO
  }

  function Wrap(t: Table, i: nat): nat {
    if i < Size(t) then i else i - Size(t)
  }

  /** Turning by `a` and then by `b` entries is turning by both. */
  predicate IsProduct(t: Table, a: nat, b: nat) {
    Mul(Entry(t, a), Entry(t, b)) == Entry(t, Wrap(t, a + b))
  }

  /** The entries are the powers of a root of unity: entry `i` stands for the angle 2 pi i / size. */
  ghost predicate IsTable(t: Table) {
    && |t.cosVals| == |t.sinVals| > 0
    && Entry(t, 0) == ONE
    && (forall a: nat, b: nat | a < Size(t) && b < Size(t) :: IsProduct(t, a, b))
    && (forall h: nat | 2 * h == Size(t) :: Entry(t, h) == Negate(ONE))
  }

  function Times(a: nat, b: nat): nat {
    a * b
  }

  /** The power `e` of the root. */
  function Root(t: Table, e: nat): Complex {
    if Size(t) == 0 then ZERO else Entry(t, e % Size(t))
  }

  lemma ModStep(e: nat, n: nat)
    requires n > 0
    ensures (e + n) % n == e % n
  {
    var q, r := e / n, e % n;
    assert e + n == n * (q + 1) + r;
    DivisionIsUnique(e + n, n, q + 1, r);
  }

  lemma ModSum(a: nat, b: nat, n: nat)
    requires n > 0
    ensures (a + b) % n == if a % n + b % n < n then a % n + b % n else a % n + b % n - n
  {
    QuotientOfSum(a, b, n);
  }

  lemma RootSum(t: Table, a: nat, b: nat)
    requires IsTable(t)
    ensures Root(t, a + b) == Mul(Root(t, a), Root(t, b))
  {
    hide Mul, Entry;
    ModSum(a, b, Size(t));
    var c, d := a % Size(t), b % Size(t);
    assert IsProduct(t, c, d);
  }

  lemma {:induction false} RootTurns(t: Table, e: nat, n: nat)
    requires IsTable(t)
    ensures Root(t, e + Times(n, Size(t))) == Root(t, e)
  {
    hide IsTable, Entry, Times;
    if n > 0 {
      RootTurns(t, e, n - 1);
      OneTurn(e, n, Size(t));
      TableHasSize(t);
      ModStep(e + Times(n - 1, Size(t)), Size(t));
    } else {
      NoTurn(Size(t));
    }
  }

  lemma NoTurn(size: nat)
    ensures Times(0, size) == 0
  {
  }

  lemma TableHasSize(t: Table)
    requires IsTable(t)
    ensures Size(t) > 0
  {
    hide Mul, Entry;
  }

  lemma OneTurn(e: nat, n: nat, size: nat)
    requires n > 0
    ensures e + Times(n, size) == e + Times(n - 1, size) + size
  {
  }

  /** Half a turn negates. */
  lemma RootHalf(t: Table, e: nat, h: nat)
    requires IsTable(t) && 2 * h == Size(t)
    ensures Root(t, e + h) == Negate(Root(t, e))
  {
    hide Entry, Mul, Negate;
    RootSum(t, e, h);
    DivisionIsUnique(h, Size(t), 0, h);
    MulMinusOne(Root(t, e));
  }

  lemma MulMinusOne(w: Complex)
    ensures Mul(w, Negate(ONE)) == Negate(w)
  {
  }

  // ---------------------------------------------------------------- The transform

  /** The table entries to turn by for term `n` of coefficient `k`. */
  function Exponent(k: nat, n: nat, s: nat): nat {
    Times(Times(k, n), s)
  }

  /** The first `n` terms of coefficient `k` of the transform of `x`, whose angle step is `s` table entries. */
  function DftSum(t: Table, x: seq<real>, s: nat, k: nat, n: nat): Complex
    requires n <= |x|
  {
    if n == 0 then ZERO
    else Add(DftSum(t, x, s, k, n - 1), Scale(x[n - 1], Root(t, Exponent(k, n - 1, s))))
  }

  function Dft(t: Table, x: seq<real>, s: nat, k: nat): Complex
  {
    DftSum(t, x, s, k, |x|)
  }

  /** The sum of the first `n` values, each times the entry of a table at its angle. */
  function Weighted(vals: seq<real>, x: seq<real>, s: nat, k: nat, n: nat): real
    requires n <= |x| && |vals| > 0
  {
    if n == 0 then 0.0 else Weighted(vals, x, s, k, n - 1) + x[n - 1] * vals[Exponent(k, n - 1, s) % |vals|]
  }

  /** A coefficient in terms of the table: its real part is the sum with the cosines, and its imaginary part is minus
      the sum with the sines. */
  lemma {:induction false} DftInParts(t: Table, x: seq<real>, s: nat, k: nat, n: nat)
    requires IsTable(t) && n <= |x|
    ensures DftSum(t, x, s, k, n) == Complex(Weighted(t.cosVals, x, s, k, n), -Weighted(t.sinVals, x, s, k, n))
  {
    hide IsTable, Exponent;
    TableHasSize(t);
    SameSizes(t);
    if n > 0 {
      DftInParts(t, x, s, k, n - 1);
      PartsOfTerm(x[n - 1], t.cosVals[Exponent(k, n - 1, s) % Size(t)], t.sinVals[Exponent(k, n - 1, s) % Size(t)]);
    }
  }

  lemma PartsOfTerm(x: real, c: real, d: real)
    ensures Scale(x, Complex(c, -d)) == Complex(x * c, -(x * d))
  {
  }

  function Evens(x: seq<real>): (y: seq<real>)
    ensures |y| == |x| / 2
  {
    seq(|x| / 2, i requires 0 <= i < |x| / 2 => x[2 * i])
  }

  function Odds(x: seq<real>): (y: seq<real>)
    ensures |y| == |x| / 2
  {
    seq(|x| / 2, i requires 0 <= i < |x| / 2 => x[2 * i + 1])
  }

  lemma ExponentOfEven(k: nat, m: nat, s: nat)
    ensures Exponent(k, 2 * m, s) == Exponent(k, m, 2 * s)
  {
  }

  lemma ExponentOfOdd(k: nat, m: nat, s: nat)
    ensures Exponent(k, 2 * m + 1, s) == Times(k, s) + Exponent(k, m, 2 * s)
  {
  }

  lemma Collect(e: Complex, o: Complex, w: Complex, x: real, y: real, v: Complex)
    ensures Add(Add(Add(e, Mul(w, o)), Scale(x, v)), Scale(y, Mul(w, v)))
      == Add(Add(e, Scale(x, v)), Mul(w, Add(o, Scale(y, v))))
  {
    hide Mul, Scale;
    MulDistributes(w, o, Scale(y, v));
    MulScale(w, y, v);
  }

  lemma MulDistributes(w: Complex, a: Complex, b: Complex)
    ensures Mul(w, Add(a, b)) == Add(Mul(w, a), Mul(w, b))
  {
  }

  lemma MulScale(w: Complex, y: real, v: Complex)
    ensures Mul(w, Scale(y, v)) == Scale(y, Mul(w, v))
  {
    Swap(w.re, y, v.re);
    Swap(w.im, y, v.im);
    Swap(w.re, y, v.im);
    Swap(w.im, y, v.re);
  }

  lemma Swap(a: real, y: real, b: real)
    ensures a * (y * b) == y * (a * b)
  {
  }

  /** The terms with even and odd indices are two transforms of half the size. */
  lemma {:induction false} Halving(t: Table, x: seq<real>, s: nat, k: nat, m: nat)
    requires IsTable(t) && 2 * m <= |x|
    ensures DftSum(t, x, s, k, 2 * m)
         == Add(DftSum(t, Evens(x), 2 * s, k, m), Mul(Root(t, Times(k, s)), DftSum(t, Odds(x), 2 * s, k, m)))
  {
    hide IsTable, Root, Add, Mul, Scale, Entry, Times, Exponent;
    if m > 0 {
      var i := m - 1;
      Halving(t, x, s, k, i);
      var w, v := Root(t, Times(k, s)), Root(t, Exponent(k, i, 2 * s));
      ExponentOfEven(k, i, s);
      ExponentOfOdd(k, i, s);
      RootSum(t, Times(k, s), Exponent(k, i, 2 * s));
      Collect(DftSum(t, Evens(x), 2 * s, k, i), DftSum(t, Odds(x), 2 * s, k, i), w, x[2 * i], x[2 * i + 1], v);
      TwoTerms(t, x, s, k, i);
    } else {
      NoTerms(Root(t, Times(k, s)));
    }
  }

  lemma TwoTerms(t: Table, x: seq<real>, s: nat, k: nat, i: nat)
    requires 2 * i + 2 <= |x|
    ensures DftSum(t, x, s, k, 2 * (i + 1))
         == Add(Add(DftSum(t, x, s, k, 2 * i), Scale(x[2 * i], Root(t, Exponent(k, 2 * i, s)))),
           Scale(x[2 * i + 1], Root(t, Exponent(k, 2 * i + 1, s))))
  {
  }

  lemma NoTerms(w: Complex)
    ensures ZERO == Add(ZERO, Mul(w, ZERO))
  {
  }

  /** A transform of size `h` is periodic. */
  lemma {:induction false} Periodic(t: Table, x: seq<real>, s: nat, k: nat, h: nat, n: nat)
    requires IsTable(t) && n <= |x| && Times(h, s) == Size(t)
    ensures DftSum(t, x, s, k + h, n) == DftSum(t, x, s, k, n)
  {
    hide IsTable, Root, Add, Scale, Entry, Times, Exponent;
    if n > 0 {
      Periodic(t, x, s, k, h, n - 1);
      ExponentTurns(k, h, n - 1, s);
      RootTurns(t, Exponent(k, n - 1, s), n - 1);
    }
  }

  lemma ExponentTurns(k: nat, h: nat, n: nat, s: nat)
    ensures Exponent(k + h, n, s) == Exponent(k, n, s) + Times(n, Times(h, s))
  {
    assert (k + h) * n == k * n + h * n;
    assert (k * n + h * n) * s == k * n * s + h * n * s;
    assert h * n * s == n * (h * s);
  }

  /** The two coefficients made from one pair of half-size coefficients. */
  lemma Butterfly(t: Table, x: seq<real>, s: nat, k: nat)
    requires IsTable(t) && |x| % 2 == 0 && Times(|x|, s) == Size(t)
    ensures var h, e, o := |x| / 2, Dft(t, Evens(x), 2 * s, k), Dft(t, Odds(x), 2 * s, k);
      && Dft(t, x, s, k) == Add(e, Mul(Root(t, Times(k, s)), o))
      && Dft(t, x, s, k + h) == Add(e, Negate(Mul(Root(t, Times(k, s)), o)))
  {
    hide IsTable, Root, Add, Mul, Negate, DftSum, Entry, Times, Exponent;
    var h := |x| / 2;
    Halving(t, x, s, k, h);
    Halving(t, x, s, k + h, h);
    HalfTurn(h, s, Size(t));
    Periodic(t, Evens(x), 2 * s, k, h, h);
    Periodic(t, Odds(x), 2 * s, k, h, h);
    Spread(k, h, s);
    RootHalf(t, Times(k, s), Times(h, s));
    MulNegate(Root(t, Times(k, s)), Dft(t, Odds(x), 2 * s, k));
  }

  lemma HalfTurn(h: nat, s: nat, size: nat)
    requires Times(2 * h, s) == size
    ensures Times(h, 2 * s) == size && 2 * Times(h, s) == size
  {
  }

  lemma Spread(k: nat, h: nat, s: nat)
    ensures Times(k + h, s) == Times(k, s) + Times(h, s)
  {
  }

  lemma MulNegate(w: Complex, o: Complex)
    ensures Mul(Negate(w), o) == Negate(Mul(w, o))
  {
  }

  // ---------------------------------------------------------------- In place

  /** Coefficient `k` is stored from `at` on, as a pair. */
  predicate Stored(out: seq<real>, at: nat, k: nat, c: Complex) {
    at + 2 * k + 1 < |out| && out[at + 2 * k] == c.re && out[at + 2 * k + 1] == c.im
  }

  /** The first `n` coefficients of the transform of `x` are stored from `at` on. */
  ghost predicate Transformed(out: seq<real>, at: nat, t: Table, x: seq<real>, s: nat, n: nat) {
    forall k: nat | k < n :: Stored(out, at, k, Dft(t, x, s, k))
  }

  /** The first `n` coefficients are stored from `at` on as sums with the cosines and minus sums with the sines. */
  ghost predicate InParts(out: seq<real>, at: nat, t: Table, x: seq<real>, s: nat, n: nat)
    requires |t.cosVals| > 0 && |t.sinVals| > 0
  {
    forall k: nat | k < n ::
      Stored(out, at, k, Complex(Weighted(t.cosVals, x, s, k, |x|), -Weighted(t.sinVals, x, s, k, |x|)))
  }

  lemma TransformedInParts(out: seq<real>, at: nat, t: Table, x: seq<real>, s: nat, n: nat)
    requires IsTable(t) && Transformed(out, at, t, x, s, n)
    ensures |t.sinVals| == |t.cosVals| > 0 && InParts(out, at, t, x, s, n)
  {
    hide IsTable, DftSum, Stored;
    TableHasSize(t);
    SameSizes(t);
    forall k: nat | k < n
      ensures Stored(out, at, k, Complex(Weighted(t.cosVals, x, s, k, |x|), -Weighted(t.sinVals, x, s, k, |x|)))
    {
      DftInParts(t, x, s, k, |x|);
      assert Stored(out, at, k, Dft(t, x, s, k));
    }
  }

  /** Nothing has changed outside `[from, to)`. */
  predicate SameOutside(before: seq<real>, after: seq<real>, from: nat, to: nat) {
    |after| == |before| && forall i | 0 <= i < |before| && !(from <= i < to) :: after[i] == before[i]
  }

  /** How much of the input and output buffers the transform of `n` values uses. */
  function InNeed(n: nat): nat {
    if n <= 1 || n % 2 == 1 then n else n + InNeed(n / 2)
  }

  function OutNeed(n: nat): nat {
    if n <= 1 || n % 2 == 1 then 2 * n else 3 * n + OutNeed(n / 2)
  }

  /** The buffers of the spectrogram, of twice and eight times the frame size, are large enough. */
  lemma {:induction false} BuffersSuffice(n: nat)
    ensures InNeed(n) <= 2 * n && OutNeed(n) <= 6 * n && OutNeed(n) >= 2 * n && InNeed(n) >= n
  {
    if n > 1 && n % 2 == 0 {
      BuffersSuffice(n / 2);
    }
  }

  lemma NeedOfHalf(h: nat)
    requires h > 0
    ensures InNeed(2 * h) == 2 * h + InNeed(h) && OutNeed(2 * h) == 6 * h + OutNeed(h)
  {
  }

  lemma StepOf(n: nat, s: nat, size: nat)
    requires Times(n, s) == size && n > 0
    ensures size / n == s
  {
    DivisionIsUnique(size, n, s, 0);
  }

  /** The naive transform. */
  method DftInto(t: Table, input: array<real>, inAt: nat, n: nat, out: array<real>, outAt: nat, ghost s: nat)
    requires IsTable(t) && n > 0 && Times(n, s) == Size(t) && input != out
    requires inAt + n <= input.Length && outAt + 2 * n <= out.Length
    modifies out
    ensures Transformed(out[..], outAt, t, input[inAt..inAt + n], s, n)
    ensures SameOutside(old(out[..]), out[..], outAt, outAt + 2 * n)
  {
    hide IsTable, Dft, Times;
    TableHasSize(t);
    StepOf(n, s, Size(t));
    var step := Size(t) / n;
    ghost var x := input[inAt..inAt + n];
    for k := 0 to n
      invariant Transformed(out[..], outAt, t, x, s, k)
      invariant SameOutside(old(out[..]), out[..], outAt, outAt + 2 * k)
    {
      var c := Coefficient(t, input, inAt, n, k, step);
      ghost var before := out[..];
      out[outAt + 2 * k] := c.re;
      out[outAt + 2 * k + 1] := c.im;
      OneMoreStored(before, out[..], outAt, t, x, s, k);
    }
  }

  /** The inner loop of the naive transform. */
  method Coefficient(t: Table, input: array<real>, inAt: nat, n: nat, k: nat, step: nat) returns (c: Complex)
    requires IsTable(t) && inAt + n <= input.Length
    ensures c == Dft(t, input[inAt..inAt + n], step, k)
  {
    hide IsTable, Exponent, DftSum;
    TableHasSize(t);
    SameSizes(t);
    ghost var x := input[inAt..inAt + n];
    var re, im := 0.0, 0.0;
    NoTermsYet(t, x, step, k);
    for i := 0 to n
      invariant Complex(re, im) == DftSum(t, x, step, k, i)
    {
      var idx := Exponent(k, i, step) % Size(t);
      re := re + input[inAt + i] * t.cosVals[idx];
      im := im - input[inAt + i] * t.sinVals[idx];
      OneMoreTerm(t, x, step, k, i);
    }
    c := Complex(re, im);
  }

  lemma SameSizes(t: Table)
    requires IsTable(t)
    ensures |t.cosVals| == |t.sinVals|
  {
    hide Mul, Entry;
  }

  lemma NoTermsYet(t: Table, x: seq<real>, s: nat, k: nat)
    ensures DftSum(t, x, s, k, 0) == ZERO
  {
  }

  lemma OneMoreTerm(t: Table, x: seq<real>, s: nat, k: nat, i: nat)
    requires i < |x|
    ensures DftSum(t, x, s, k, i + 1) == Add(DftSum(t, x, s, k, i), Scale(x[i], Root(t, Exponent(k, i, s))))
  {
    hide Exponent, Root, Add, Scale;
  }

  lemma OneMoreStored(before: seq<real>, after: seq<real>, at: nat, t: Table, x: seq<real>, s: nat, k: nat)
    requires Transformed(before, at, t, x, s, k) && SameOutside(before, after, at + 2 * k, at + 2 * k + 2)
    requires Stored(after, at, k, Dft(t, x, s, k))
    ensures Transformed(after, at, t, x, s, k + 1)
  {
    hide Dft;
    forall i: nat | i < k + 1
      ensures Stored(after, at, i, Dft(t, x, s, i))
    {
      if i < k {
        assert Stored(before, at, i, Dft(t, x, s, i));
      }
    }
  }

  /** The values of one half: those with even indices, or those with odd ones. */
  function Half(x: seq<real>, odd: bool): seq<real> {
    if odd then Odds(x) else Evens(x)
  }

  /** Copies every other value of `n` to after them. */
  method Gather(input: array<real>, inAt: nat, n: nat, odd: bool)
    requires n % 2 == 0 && inAt + n + n / 2 <= input.Length
    modifies input
    ensures SameOutside(old(input[..]), input[..], inAt + n, inAt + n + n / 2)
    ensures input[inAt + n..inAt + n + n / 2] == Half(old(input[inAt..inAt + n]), odd)
  {
    ghost var before := input[..];
    var half, first := n / 2, if odd then 1 else 0;
    for i := 0 to half
      invariant forall j | 0 <= j < input.Length && !(inAt + n <= j < inAt + n + half) :: input[j] == before[j]
      invariant forall j | 0 <= j < i :: input[inAt + n + j] == before[inAt + 2 * j + first]
    {
      input[inAt + n + i] := input[inAt + 2 * i + first];
    }
    ghost var x, y := before[inAt..inAt + n], input[inAt + n..inAt + n + half];
    forall j | 0 <= j < half
      ensures y[j] == x[2 * j + first]
    {
      assert y[j] == input[inAt + n + j];
    }
    HalfIs(x, y, odd);
  }

  lemma HalfIs(x: seq<real>, y: seq<real>, odd: bool)
    requires |x| % 2 == 0 && |y| == |x| / 2
    requires forall j | 0 <= j < |y| :: y[j] == x[2 * j + if odd then 1 else 0]
    ensures y == Half(x, odd)
  {
  }

  ghost predicate StoredPair(out: seq<real>, at: nat, t: Table, x: seq<real>, s: nat, i: nat) {
    Stored(out, at, i, Dft(t, x, s, i)) && Stored(out, at, i + |x| / 2, Dft(t, x, s, i + |x| / 2))
  }

  /** The first `k` coefficients of both halves are stored. */
  ghost predicate Combined(out: seq<real>, at: nat, t: Table, x: seq<real>, s: nat, k: nat) {
    forall i: nat | i < k :: StoredPair(out, at, t, x, s, i)
  }

  /** Only the places of coefficients `k` and `k + h` have changed. */
  predicate SameButPair(before: seq<real>, after: seq<real>, at: nat, h: nat, k: nat) {
    |after| == |before|
    && forall i | 0 <= i < |before| && !(at + 2 * k <= i < at + 2 * k + 2)
         && !(at + 2 * (k + h) <= i < at + 2 * (k + h) + 2) :: after[i] == before[i]
  }

  lemma TwoMoreStored(before: seq<real>, after: seq<real>, at: nat, t: Table, x: seq<real>, s: nat, k: nat)
    requires Combined(before, at, t, x, s, k) && k < |x| / 2 && at + 2 * |x| <= |before|
    requires SameButPair(before, after, at, |x| / 2, k) && StoredPair(after, at, t, x, s, k)
    ensures Combined(after, at, t, x, s, k + 1)
  {
    hide Dft;
    forall i: nat | i < k + 1
      ensures StoredPair(after, at, t, x, s, i)
    {
      if i < k {
        assert StoredPair(before, at, t, x, s, i);
      }
    }
  }

  lemma CombinedIsTransformed(out: seq<real>, at: nat, t: Table, x: seq<real>, s: nat)
    requires |x| % 2 == 0 && Combined(out, at, t, x, s, |x| / 2)
    ensures Transformed(out, at, t, x, s, |x|)
  {
    hide Dft, Stored;
    var h := |x| / 2;
    forall k: nat | k < |x|
      ensures Stored(out, at, k, Dft(t, x, s, k))
    {
      var i := if k < h then k else k - h;
      assert StoredPair(out, at, t, x, s, i);
    }
  }

  /** Combines the transforms of the even and the odd values, kept after the results. */
  method Combine(t: Table, n: nat, out: array<real>, outAt: nat, ghost x: seq<real>, ghost s: nat)
    requires IsTable(t) && n > 0 && n % 2 == 0 && n == |x| && Times(n, s) == Size(t) && outAt + 4 * n <= out.Length
    requires Transformed(out[..], outAt + 2 * n, t, Evens(x), 2 * s, n / 2)
    requires Transformed(out[..], outAt + 3 * n, t, Odds(x), 2 * s, n / 2)
    modifies out
    ensures Transformed(out[..], outAt, t, x, s, n)
    ensures SameOutside(old(out[..]), out[..], outAt, outAt + 2 * n)
  {
    hide IsTable, Dft, Times, Root, Add, Mul, Negate, Evens, Odds, Transformed, Combined;
    TableHasSize(t);
    SameSizes(t);
    StepOf(n, s, Size(t));
    var halfN, step := n / 2, Size(t) / n;
    NothingCombined(out[..], outAt, t, x, s);
    for k := 0 to halfN
      invariant Combined(out[..], outAt, t, x, s, k)
      invariant SameOutside(old(out[..]), out[..], outAt, outAt + 2 * n)
    {
      PairIsThere(old(out[..]), out[..], outAt, n, t, x, s, k);
      ghost var before := out[..];
      IndexInTable(t, n, k, s);
      CombinePair(t, n, out, outAt, Dft(t, Evens(x), 2 * s, k), Dft(t, Odds(x), 2 * s, k), k, step);
      Butterfly(t, x, s, k);
      PairIsInside(before, out[..], outAt, n, k);
      SameJoin(old(out[..]), before, out[..], outAt, outAt + 2 * n, outAt, outAt + 2 * n, outAt, outAt + 2 * n);
      TwoMoreStored(before, out[..], outAt, t, x, s, k);
    }
    CombinedIsTransformed(out[..], outAt, t, x, s);
  }

  lemma PairIsInside(before: seq<real>, after: seq<real>, at: nat, n: nat, k: nat)
    requires SameButPair(before, after, at, n / 2, k) && k < n / 2
    ensures SameOutside(before, after, at, at + 2 * n)
  {
  }

  /** One turn of the loop above: combines `e` and `o`, the latter turned by `k` steps. */
  method CombinePair(t: Table, n: nat, out: array<real>, outAt: nat, ghost e: Complex, ghost o: Complex, k: nat,
                     step: nat)
    requires outAt + 4 * n <= out.Length && n % 2 == 0 && k < n / 2
    requires Times(k, step) < |t.cosVals| == |t.sinVals|
    requires Stored(out[..], outAt + 2 * n, k, e) && Stored(out[..], outAt + 3 * n, k, o)
    modifies out
    ensures SameButPair(old(out[..]), out[..], outAt, n / 2, k)
    ensures Stored(out[..], outAt, k, Add(e, Mul(Entry(t, Times(k, step)), o)))
    ensures Stored(out[..], outAt, k + n / 2, Add(e, Negate(Mul(Entry(t, Times(k, step)), o))))
  {
    hide Times, Add, Mul, Negate;
    var halfN, idx := n / 2, Times(k, step);
    var re, im := t.cosVals[idx], -t.sinVals[idx];
    var reOdd, imOdd := out[outAt + 3 * n + 2 * k], out[outAt + 3 * n + 2 * k + 1];
    var reEven, imEven := out[outAt + 2 * n + 2 * k], out[outAt + 2 * n + 2 * k + 1];
    PairIs(e, o, Entry(t, idx), Complex(reEven, imEven), Complex(reOdd, imOdd), Complex(re, im));
    var plus := Complex(reEven + re * reOdd - im * imOdd, imEven + re * imOdd + im * reOdd);
    var minus := Complex(reEven - re * reOdd + im * imOdd, imEven - re * imOdd - im * reOdd);
    StorePair(out, outAt, k, k + halfN, plus, minus);
  }

  /** The four assignments of that turn. */
  method StorePair(out: array<real>, at: nat, k: nat, l: nat, x: Complex, y: Complex)
    requires k < l && at + 2 * l + 2 <= out.Length
    modifies out
    ensures Stored(out[..], at, k, x) && Stored(out[..], at, l, y)
    ensures SameButPair(old(out[..]), out[..], at, l - k, k)
  {
    out[at + 2 * k] := x.re;
    out[at + 2 * k + 1] := x.im;
    out[at + 2 * l] := y.re;
    out[at + 2 * l + 1] := y.im;
  }

  lemma NothingCombined(out: seq<real>, at: nat, t: Table, x: seq<real>, s: nat)
    ensures Combined(out, at, t, x, s, 0)
  {
  }

  lemma Pairing(e: Complex, o: Complex, w: Complex)
    ensures Add(e, Mul(w, o)) == Complex(e.re + w.re * o.re - w.im * o.im, e.im + w.re * o.im + w.im * o.re)
    ensures Add(e, Negate(Mul(w, o))) == Complex(e.re - w.re * o.re + w.im * o.im, e.im - w.re * o.im - w.im * o.re)
  {
    hide Add, Negate;
    var m := Mul(w, o);
    SumAndDifference(e, m, w.re * o.re, w.im * o.im, w.re * o.im, w.im * o.re);
  }

  /** The same for the parts as they are stored. */
  lemma PairIs(e: Complex, o: Complex, w: Complex, even: Complex, odd: Complex, root: Complex)
    requires e == even && o == odd && w == root
    ensures Complex(even.re + root.re * odd.re - root.im * odd.im, even.im + root.re * odd.im + root.im * odd.re)
      == Add(e, Mul(w, o))
    ensures Complex(even.re - root.re * odd.re + root.im * odd.im, even.im - root.re * odd.im - root.im * odd.re)
      == Add(e, Negate(Mul(w, o)))
  {
    hide Add, Negate, Mul;
    Pairing(even, odd, root);
  }

  lemma SumAndDifference(e: Complex, m: Complex, a: real, b: real, c: real, d: real)
    requires m == Complex(a - b, c + d)
    ensures Add(e, m) == Complex(e.re + a - b, e.im + c + d) && Add(e, Negate(m)) == Complex(e.re - a + b, e.im - c - d)
  {
  }

  lemma IndexInTable(t: Table, n: nat, k: nat, s: nat)
    requires Times(n, s) == Size(t) && k < n && Size(t) > 0 && |t.cosVals| == |t.sinVals|
    ensures Times(k, s) < Size(t)
    ensures Root(t, Times(k, s)) == Entry(t, Times(k, s))
  {
    NextMultiple(s, k, n);
    DivisionIsUnique(Times(k, s), Size(t), 0, Times(k, s));
  }

  /** The half-size coefficients have not been overwritten. */
  lemma PairIsThere(before: seq<real>, after: seq<real>, outAt: nat, n: nat, t: Table, x: seq<real>, s: nat, k: nat)
    requires n % 2 == 0 && k < n / 2 && outAt + 4 * n <= |before| && SameOutside(before, after, outAt, outAt + 2 * n)
    requires Transformed(before, outAt + 2 * n, t, Evens(x), 2 * s, n / 2)
    requires Transformed(before, outAt + 3 * n, t, Odds(x), 2 * s, n / 2)
    ensures Stored(after, outAt + 2 * n, k, Dft(t, Evens(x), 2 * s, k))
    ensures Stored(after, outAt + 3 * n, k, Dft(t, Odds(x), 2 * s, k))
  {
    hide Dft, Evens, Odds;
    assert Stored(before, outAt + 2 * n, k, Dft(t, Evens(x), 2 * s, k));
    assert Stored(before, outAt + 3 * n, k, Dft(t, Odds(x), 2 * s, k));
  }

  lemma TransformedKept(before: seq<real>, after: seq<real>, at: nat, t: Table, x: seq<real>, s: nat, n: nat, from: nat,
                        to: nat)
    requires Transformed(before, at, t, x, s, n) && SameOutside(before, after, from, to) && at + 2 * n <= from
    ensures Transformed(after, at, t, x, s, n)
  {
    hide Dft;
    forall k: nat | k < n
      ensures Stored(after, at, k, Dft(t, x, s, k))
    {
      assert Stored(before, at, k, Dft(t, x, s, k));
    }
  }

  lemma SameJoin(a: seq<real>, b: seq<real>, c: seq<real>, from1: nat, to1: nat, from2: nat, to2: nat, from: nat,
                 to: nat)
    requires SameOutside(a, b, from1, to1) && SameOutside(b, c, from2, to2)
    requires from <= from1 && to1 <= to && from <= from2 && to2 <= to
    ensures SameOutside(a, c, from, to)
  {
  }

  lemma DftOfOne(t: Table, x: seq<real>, s: nat)
    requires IsTable(t) && |x| == 1
    ensures Dft(t, x, s, 0) == Complex(x[0], 0.0)
  {
    assert Exponent(0, 0, s) == 0;
    assert 0 % Size(t) == 0;
    assert DftSum(t, x, s, 0, 1) == Add(ZERO, Scale(x[0], ONE));
  }

  lemma HalfStep(n: nat, s: nat, size: nat)
    requires n % 2 == 0 && Times(n, s) == size
    ensures Times(n / 2, 2 * s) == size
  {
  }

  /** The fast transform computes what the naive one defines, and leaves its input as it was. */
  method Fft(t: Table, input: array<real>, inAt: nat, n: nat, out: array<real>, outAt: nat, ghost s: nat)
    requires IsTable(t) && n > 0 && Times(n, s) == Size(t) && input != out
    requires inAt + InNeed(n) <= input.Length && outAt + OutNeed(n) <= out.Length
    modifies input, out
    ensures Transformed(out[..], outAt, t, old(input[inAt..inAt + n]), s, n)
    ensures SameOutside(old(input[..]), input[..], inAt + n, inAt + InNeed(n))
    ensures SameOutside(old(out[..]), out[..], outAt, outAt + OutNeed(n))
    decreases n, 1
  {
    hide IsTable, Dft, Times, Evens, Odds, Transformed, InNeed, OutNeed;
    BuffersSuffice(n);
    ghost var x := input[inAt..inAt + n];
    if n == 1 {
      out[outAt] := input[inAt];
      out[outAt + 1] := 0.0;
      DftOfOne(t, x, s);
      OneIsStored(out[..], outAt, t, x, s);
      return;
    }
    var halfN := n / 2;
    if n - halfN * 2 == 1 {
      DftInto(t, input, inAt, n, out, outAt, s);
      return;
    }
    BuffersSuffice(halfN);
    NeedOfHalf(halfN);
    ghost var in0, out0 := input[..], out[..];
    TransformHalf(t, input, inAt, halfN, out, outAt + 2 * n, false, s);
    ghost var in1, out1 := input[..], out[..];
    SameSlice(in0, in1, inAt, n, inAt + InNeed(n));
    TransformHalf(t, input, inAt, halfN, out, outAt + 3 * n, true, s);
    ghost var out2 := out[..];
    SameJoin(in0, in1, input[..], inAt + n, inAt + InNeed(n), inAt + n, inAt + InNeed(n), inAt + n, inAt + InNeed(n));
    TransformedKept(out1, out2, outAt + 2 * n, t, Evens(x), 2 * s, halfN, outAt + 3 * n, outAt + OutNeed(n));
    SameJoin(out0, out1, out2, outAt + 2 * n, outAt + 2 * n + OutNeed(halfN), outAt + 3 * n, outAt + OutNeed(n), outAt,
      outAt + OutNeed(n));
    Combine(t, n, out, outAt, x, s);
    SameJoin(out0, out2, out[..], outAt, outAt + OutNeed(n), outAt, outAt + 2 * n, outAt, outAt + OutNeed(n));
  }

  /** Transforms the even or the odd values, with the space after the input as their buffer. */
  method TransformHalf(t: Table, input: array<real>, inAt: nat, halfN: nat, out: array<real>, at: nat, odd: bool,
                       ghost s: nat)
    requires 0 < halfN && inAt + InNeed(2 * halfN) <= input.Length && at + OutNeed(halfN) <= out.Length && input != out
    requires inAt + 2 * halfN <= input.Length
    requires IsTable(t) && Times(2 * halfN, s) == Size(t)
    modifies input, out
    ensures Transformed(out[..], at, t, Half(old(input[inAt..inAt + 2 * halfN]), odd), 2 * s, halfN)
    ensures SameOutside(old(input[..]), input[..], inAt + 2 * halfN, inAt + InNeed(2 * halfN))
    ensures SameOutside(old(out[..]), out[..], at, at + OutNeed(halfN))
    decreases 2 * halfN, 0
  {
    hide IsTable, Dft, Times, Evens, Odds, Transformed, InNeed, OutNeed;
    BuffersSuffice(halfN);
    NeedOfHalf(halfN);
    HalfStep(2 * halfN, s, Size(t));
    ghost var in0 := input[..];
    Gather(input, inAt, 2 * halfN, odd);
    ghost var in1 := input[..];
    Fft(t, input, inAt + 2 * halfN, halfN, out, at, 2 * s);
    SameJoin(in0, in1, input[..], inAt + 2 * halfN, inAt + 3 * halfN, inAt + 3 * halfN, inAt + InNeed(2 * halfN),
      inAt + 2 * halfN, inAt + InNeed(2 * halfN));
  }

  lemma SameSlice(before: seq<real>, after: seq<real>, at: nat, n: nat, to: nat)
    requires SameOutside(before, after, at + n, to) && at + n <= |before|
    ensures after[at..at + n] == before[at..at + n]
  {
  }

  lemma OneIsStored(out: seq<real>, at: nat, t: Table, x: seq<real>, s: nat)
    requires Stored(out, at, 0, Dft(t, x, s, 0))
    ensures Transformed(out, at, t, x, s, 1)
  {
  }
}
