/** Common divisors of the first entries of a sequence of scalars, which subtracting one entry from another keeps. */
module CommonDivisors {
  import opened Digits

  predicate Divides(d: nat, x: int)
    requires d > 0
  {
    x % d == 0
  }

  predicate DividesAll(d: nat, key: seq<int>, n: nat)
    requires d > 0 && n <= |key|
  {
    forall i :: 0 <= i < n ==> Divides(d, key[i])
  }

  ghost predicate SameDivisors(a: seq<int>, b: seq<int>, n: nat)
    requires n <= |a| && n <= |b|
  {
    forall d: nat {:trigger DividesAll(d, a, n)} {:trigger DividesAll(d, b, n)} ::
      d > 0 ==> (DividesAll(d, a, n) <==> DividesAll(d, b, n))
  }

  /** The greatest common divisor, by its divisors; zero if all entries are zero. */
  ghost predicate IsGcd(g: int, key: seq<int>, n: nat)
    requires n <= |key|
  {
    forall d: nat {:trigger DividesAll(d, key, n)} :: d > 0 ==> (Divides(d, g) <==> DividesAll(d, key, n))
  }

  ghost predicate Coprime(key: seq<int>, n: nat)
    requires n <= |key|
  {
    forall d: nat {:trigger DividesAll(d, key, n)} :: d >= 2 ==> !DividesAll(d, key, n)
  }

  ghost predicate TwoSet(key: seq<int>, n: nat)
    requires n <= |key|
  {
    exists i, j :: 0 <= i < n && 0 <= j < n && i != j && key[i] != 0 && key[j] != 0
  }

  /** Among the first n entries only the one at i may be set. */
  predicate OnlyOne(key: seq<int>, n: nat, i: nat) {
    n <= |key| && i < n && forall k :: 0 <= k < n && k != i ==> key[k] == 0
  }

  lemma DivideDifference(d: nat, a: int, b: int)
    requires d > 0 && Divides(d, b)
    ensures Divides(d, a - b) <==> Divides(d, a)
  {
    var k, q, r := b / d, a / d, a % d;
    assert b == d * k && a == d * q + r;
    Distribute(d, q, -k);
    Product(d, k);
    ModBy(a - b, d, q - k, r);
  }

  /** One step of subtractive reduction. */
  lemma StepKeepsDivisors(key: seq<int>, i: nat, j: nat, n: nat)
    requires i < n && j < n && i != j && n <= |key|
    ensures SameDivisors(key, key[i := key[i] - key[j]], n)
  {
    hide Divides;
    var next := key[i := key[i] - key[j]];
    forall d: nat | d > 0
      ensures DividesAll(d, key, n) <==> DividesAll(d, next, n)
    {
      if Divides(d, key[j]) {
        DivideDifference(d, key[i], key[j]);
        assert forall k :: 0 <= k < n && k != i ==> next[k] == key[k];
      } else {
        assert next[j] == key[j];
      }
    }
  }

  lemma LastIsGcd(key0: seq<int>, key: seq<int>, n: nat, i: nat)
    requires n <= |key0| && OnlyOne(key, n, i) && SameDivisors(key0, key, n)
    ensures IsGcd(key[i], key0, n)
  {
    forall d: nat | d > 0
      ensures Divides(d, key[i]) <==> DividesAll(d, key0, n)
    {
      assert DividesAll(d, key, n) <==> Divides(d, key[i]);
    }
  }

  /** The common divisor is one exactly when nothing larger divides all entries. */
  lemma OneIsCoprime(g: int, key: seq<int>, n: nat)
    requires n <= |key| && IsGcd(g, key, n) && g >= 0
    ensures g == 1 <==> Coprime(key, n)
  {
    assert DividesAll(2, key, n) <==> Divides(2, g);
    if g >= 2 {
      assert Divides(g, g);
      assert DividesAll(g, key, n);
    } else if g == 1 {
      forall d: nat | d >= 2
        ensures !DividesAll(d, key, n)
      {
        ModBy(1, d, 0, 1);
      }
    }
  }

  /** A set multiple is at least its divisor. */
  lemma DivisorIsSmaller(d: nat, x: int)
    requires d > 0 && x > 0 && Divides(d, x)
    ensures d <= x
  {
    if x < d {
      ModBy(x, d, 0, x);
      assert false;
    }
  }
}
