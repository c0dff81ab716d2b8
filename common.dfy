/** Vocabulary shared by the cost evaluators and the three search engines:
    optional values, the exceptions the evaluators raise, costs that may be
    float('inf'), injected random draws, and small sequence helpers. */
module Common {

  datatype Option<T> = None | Some(value: T)

  /** The Python exceptions raised by the modelled code. Callers either
      propagate them (the ACS run) or absorb them (GA fitness, Q-learning cost). */
  datatype Fault =
    | InvalidWeights               // ValueError: the weight sum does not round to 1.0
    | MissingLink(u: int, v: int)  // ValueError: no adjacency entry from u to v
    | MissingVertex(id: int)       // KeyError on the vertex table
    | DivisionByZero               // ZeroDivisionError (and the model's stand-in for a float64 +inf)
    | EmptyPath                    // IndexError: path[0] of an empty path
    | SampleTooLarge               // ValueError: random.sample(xs, 2) with fewer than two xs

  datatype Result<T> = Ok(value: T) | Err(fault: Fault)

  /** A float cost that may be float('inf'). */
  datatype Cost = Fin(amount: real) | Inf

  /** Python's `a < b` on such costs. */
  predicate Less(a: Cost, b: Cost) {
    a.Fin? && (b.Inf? || a.amount < b.amount)
  }

  /** Python's `a <= b` on such costs. */
  predicate AtMost(a: Cost, b: Cost) {
    b.Inf? || (a.Fin? && a.amount <= b.amount)
  }

  lemma AtMostTotal(a: Cost, b: Cost)
    ensures AtMost(a, b) || AtMost(b, a)
    ensures !Less(a, b) <==> AtMost(b, a)
  {
  }

  lemma AtMostTransitive(a: Cost, b: Cost, c: Cost)
    requires AtMost(a, b) && AtMost(b, c)
    ensures AtMost(a, c)
  {
  }

  /** `-np.log`, left uninterpreted: every evaluator takes it as a parameter. */
  type NegLog = real -> real

  /** The one fact about `-np.log` the proofs may rely on. */
  ghost predicate NegLogNonneg(negLn: NegLog) {
    forall r :: 0.0 < r <= 1.0 ==> negLn(r) >= 0.0
  }

  /** An injected source of `random.random()` outcomes: the k-th draw is draws(k).
      Every statement about a method that consumes draws holds for every such source. */
  type Draws = nat -> real

  ghost predicate UnitDraws(draws: Draws) {
    forall k: nat :: 0.0 <= draws(k) < 1.0
  }

  /** The index a uniform draw u selects among n choices (random.choice, randint). */
  function Pick(u: real, n: nat): (i: nat)
    requires 0.0 <= u < 1.0 && 0 < n
    ensures i < n
  {
    var x := u * n as real;
    assert 0.0 <= x < n as real;
    x.Floor
  }

  /** The elements of `s` that `keep` accepts, in their order in `s` (a list comprehension). */
  function Filter(s: seq<int>, keep: int -> bool): (r: seq<int>)
    ensures |r| <= |s|
  {
    if s == [] then []
    else Filter(s[..|s| - 1], keep) + (if keep(s[|s| - 1]) then [s[|s| - 1]] else [])
  }

  /** The filter keeps exactly the elements of `s` that `keep` accepts. */
  lemma {:induction false} FilterMembers(s: seq<int>, keep: int -> bool)
    ensures forall x {:trigger x in Filter(s, keep)} :: x in Filter(s, keep) <==> x in s && keep(x)
    decreases |s|
  {
    if s != [] {
      var s' := s[..|s| - 1];
      FilterMembers(s', keep);
      assert s == s' + [s[|s| - 1]];
    }
  }

  function NotIn(visited: set<int>): int -> bool {
    v => v !in visited
  }

  /** `[v for v in s if v not in visited]`. */
  function Unvisited(s: seq<int>, visited: set<int>): seq<int> {
    Filter(s, NotIn(visited))
  }

  predicate Distinct(s: seq<int>) {
    forall i, j :: 0 <= i < j < |s| ==> s[i] != s[j]
  }

  /** A prefix of a prefix is a prefix. */
  lemma PrefixOfPrefix<T>(s: seq<T>, a: nat, b: nat)
    requires a <= b <= |s|
    ensures s[..b][..a] == s[..a]
  {
  }

  /** Appending leaves every prefix of the original alone. */
  lemma AppendKeepsPrefix<T>(s: seq<T>, x: T, n: nat)
    requires n <= |s|
    ensures (s + [x])[..n] == s[..n]
  {
  }

  function Elems(s: seq<int>): set<int> {
    set x | x in s
  }

  /** Python's duplicate test `len(s) == len(set(s))` is exactly Distinct. */
  lemma {:induction false} DistinctIffSetSize(s: seq<int>)
    ensures |Elems(s)| <= |s|
    ensures Distinct(s) <==> |Elems(s)| == |s|
    decreases |s|
  {
    if s != [] {
      var s' := s[..|s| - 1];
      var x := s[|s| - 1];
      DistinctIffSetSize(s');
      assert s == s' + [x];
      assert Elems(s) == Elems(s') + {x};
      if x in s' {
        assert Elems(s) == Elems(s');
        var i :| 0 <= i < |s'| && s'[i] == x;
        assert s[i] == s[|s| - 1];
      } else {
        assert |Elems(s)| == |Elems(s')| + 1;
        if Distinct(s') {
          assert Distinct(s);
        } else {
          var i, j :| 0 <= i < j < |s'| && s'[i] == s'[j];
          assert s[i] == s[j];
        }
      }
    }
  }

  /** The index Python's `max(..., key=...)` returns: the first maximal element. */
  function FirstMax(xs: seq<real>): (i: nat)
    requires |xs| > 0
    ensures i < |xs|
    ensures forall j :: 0 <= j < |xs| ==> xs[j] <= xs[i]
    ensures forall j :: 0 <= j < i ==> xs[j] < xs[i]
  {
    if |xs| == 1 then 0
    else
      var i := FirstMax(xs[..|xs| - 1]);
      if xs[|xs| - 1] > xs[i] then |xs| - 1 else i
  }

  /** `(1 - rate) * current + rate * target`: the update shared by the ACS local
      and global rules and the Q-learning rule. */
  function Blend(current: real, target: real, rate: real): real {
    (1.0 - rate) * current + rate * target
  }

  lemma MulNonneg(a: real, b: real)
    requires a >= 0.0 && b >= 0.0
    ensures a * b >= 0.0
  {
  }

  lemma QuotientPositive(a: real, b: real)
    requires a > 0.0 && b > 0.0
    ensures a / b > 0.0
  {
  }

  /** With a rate in [0, 1] the blend lies between the old value and the target. */
  lemma BlendBetween(current: real, target: real, rate: real)
    requires 0.0 <= rate <= 1.0
    ensures current <= target ==> current <= Blend(current, target, rate) <= target
    ensures target <= current ==> target <= Blend(current, target, rate) <= current
  {
    var b := Blend(current, target, rate);
    assert b == current + rate * (target - current);
    assert b == target - (1.0 - rate) * (target - current);
    if current <= target {
      MulNonneg(rate, target - current);
      MulNonneg(1.0 - rate, target - current);
    } else {
      MulNonneg(rate, current - target);
      MulNonneg(1.0 - rate, current - target);
    }
  }

  /** Blending a non-negative value towards a positive target with a positive
      rate gives a positive value. */
  lemma BlendPositive(current: real, target: real, rate: real)
    requires current >= 0.0 && target > 0.0 && 0.0 < rate <= 1.0
    ensures Blend(current, target, rate) > 0.0
  {
    MulNonneg(1.0 - rate, current);
    assert rate * target > 0.0;
  }

  /** Python's `sum(s)`. */
  function Sum(s: seq<real>): real {
    if s == [] then 0.0 else Sum(s[..|s| - 1]) + s[|s| - 1]
  }

  /** `x ** n` for the integral exponents used by the ACS rule. */
  function Pow(x: real, n: nat): real {
    if n == 0 then 1.0 else x * Pow(x, n - 1)
  }

  lemma MulPositive(a: real, b: real)
    requires a > 0.0 && b > 0.0
    ensures a * b > 0.0
  {
  }

  lemma {:induction false} PowPositive(x: real, n: nat)
    requires x > 0.0
    ensures Pow(x, n) > 0.0
  {
    if n > 0 {
      PowPositive(x, n - 1);
    }
  }
}
