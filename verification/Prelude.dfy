/** Values the operator's Go code leaves optional, and the two integer divisions
    it uses.  Go's `/` and `%` truncate toward zero; the purge grid needs floors. */
module Prelude {

  datatype Option<+T> = None | Some(value: T)

  datatype Result<+T, +E> = Ok(value: T) | Err(error: E)

  // ---- Folding a step over a sequence ----------------------------------------

  function Fold<S, L>(step: (S, L) -> S, st: S, lines: seq<L>): S
    decreases |lines|
  {
    if lines == [] then st else Fold(step, step(st, lines[0]), lines[1..])
  }

  lemma {:induction false} FoldConcat<S, L>(step: (S, L) -> S, st: S, a: seq<L>, b: seq<L>)
    ensures Fold(step, st, a + b) == Fold(step, Fold(step, st, a), b)
    decreases |a|
  {
    if a == [] {
      assert a + b == b;
    } else {
      assert (a + b)[0] == a[0] && (a + b)[1..] == a[1..] + b;
      FoldConcat(step, step(st, a[0]), a[1..], b);
    }
  }

  lemma Assoc<L>(a: seq<L>, b: seq<L>, c: seq<L>)
    ensures a + (b + c) == a + b + c
  {
  }

  function Flatten<L>(chunks: seq<seq<L>>): seq<L> {
    if chunks == [] then [] else chunks[0] + Flatten(chunks[1..])
  }

  /** Chunk by chunk through known states. */
  lemma {:induction false} FoldChunks<S, L>(step: (S, L) -> S, states: seq<S>, chunks: seq<seq<L>>)
    requires |states| == |chunks| + 1
    requires forall i :: 0 <= i < |chunks| ==> Fold(step, states[i], chunks[i]) == states[i + 1]
    ensures Fold(step, states[0], Flatten(chunks)) == states[|chunks|]
    decreases |chunks|
  {
    if chunks != [] {
      FoldConcat(step, states[0], chunks[0], Flatten(chunks[1..]));
      assert forall i :: 0 <= i < |chunks[1..]| ==> chunks[1..][i] == chunks[i + 1] && states[1..][i] == states[i + 1];
      FoldChunks(step, states[1..], chunks[1..]);
    }
  }

  // ---- Filtering and mapping in one pass -------------------------------------

  function Picked<B>(o: Option<B>): seq<B> {
    if o.Some? then [o.value] else []
  }

  /** What f finds in s, in order. */
  function Pick<A, B>(f: A -> Option<B>, s: seq<A>): seq<B> {
    if s == [] then [] else Pick(f, s[..|s| - 1]) + Picked(f(s[|s| - 1]))
  }

  lemma PickSnoc<A, B>(f: A -> Option<B>, s: seq<A>, x: A)
    ensures Pick(f, s + [x]) == if f(x).Some? then Pick(f, s) + [f(x).value] else Pick(f, s)
  {
    assert (s + [x])[..|s|] == s;
  }

  lemma {:induction false} PickConcat<A, B>(f: A -> Option<B>, a: seq<A>, b: seq<A>)
    ensures Pick(f, a + b) == Pick(f, a) + Pick(f, b)
    decreases |b|
  {
    if b == [] {
      assert a + b == a;
    } else {
      assert (a + b)[..|a + b| - 1] == a + b[..|b| - 1];
      PickConcat(f, a, b[..|b| - 1]);
    }
  }

  lemma PickAround<A, B>(f: A -> Option<B>, a: seq<A>, x: A, b: seq<A>)
    ensures Pick(f, a + [x] + b) == Pick(f, a) + Picked(f(x)) + Pick(f, b)
    ensures Pick(f, a + b) == Pick(f, a) + Pick(f, b)
  {
    PickSnoc(f, a, x);
    PickConcat(f, a + [x], b);
    PickConcat(f, a, b);
  }

  /** Replacing an element by one f finds nothing in. */
  lemma PickReplaced<A, B>(f: A -> Option<B>, s: seq<A>, i: nat, x: A) returns (a: seq<B>, b: seq<B>)
    requires i < |s| && f(x).None?
    ensures Pick(f, s) == a + Picked(f(s[i])) + b && Pick(f, s[i := x]) == a + b
  {
    var p, q := s[..i], s[i + 1..];
    assert s == p + [s[i]] + q && s[i := x] == p + [x] + q;
    PickAround(f, p, s[i], q);
    PickAround(f, p, x, q);
    a, b := Pick(f, p), Pick(f, q);
    assert a + [] == a;
  }

  lemma {:induction false} PickHas<A, B>(f: A -> Option<B>, s: seq<A>, y: B)
    ensures y in Pick(f, s) <==> exists i :: 0 <= i < |s| && f(s[i]) == Some(y)
  {
    if s != [] { PickHas(f, s[..|s| - 1], y); }
  }

  lemma {:induction false} PickSame<A, B>(f: A -> Option<B>, g: A -> Option<B>, s: seq<A>)
    requires forall x :: f(x) == g(x)
    ensures Pick(f, s) == Pick(g, s)
  {
    if s != [] { PickSame(f, g, s[..|s| - 1]); }
  }

  lemma {:induction false} PickNothing<A, B>(f: A -> Option<B>, s: seq<A>)
    ensures Pick(f, s) == [] <==> forall i :: 0 <= i < |s| ==> f(s[i]).None?
  {
    if s != [] {
      var front, last := s[..|s| - 1], s[|s| - 1];
      PickNothing(f, front);
      assert forall i :: 0 <= i < |front| ==> front[i] == s[i];
      assert Pick(f, s) == [] <==> Pick(f, front) == [] && f(last).None?;
    }
  }

  lemma {:induction false} PickTwice<A, B>(f: A -> Option<B>, s: seq<A>)
    ensures |Pick(f, s)| >= 2 <==> exists i, j :: 0 <= i < j < |s| && f(s[i]).Some? && f(s[j]).Some?
  {
    if s != [] {
      var front := s[..|s| - 1];
      PickTwice(f, front);
      PickNothing(f, front);
      if |Pick(f, s)| >= 2 && |Pick(f, front)| < 2 {
        var i :| 0 <= i < |front| && f(front[i]).Some?;
        assert f(s[i]).Some? && f(s[|s| - 1]).Some?;
      }
    }
  }

  /** A filter that reads its list from the front finds the same. */
  lemma {:induction false} FilterIsPick<A, B>(filter: seq<A> -> seq<B>, f: A -> Option<B>, s: seq<A>)
    requires forall t :: filter(t) == if t == [] then [] else Picked(f(t[0])) + filter(t[1..])
    ensures filter(s) == Pick(f, s)
    decreases |s|
  {
    if s != [] {
      FilterIsPick(filter, f, s[1..]);
      PickCons(f, s[0], s[1..]);
      assert s == [s[0]] + s[1..];
    }
  }

  lemma PickCons<A, B>(f: A -> Option<B>, x: A, s: seq<A>)
    ensures Pick(f, [x] + s) == Picked(f(x)) + Pick(f, s)
  {
    PickConcat(f, [x], s);
    assert [x] == [] + [x];
    PickSnoc(f, [], x);
  }

  /** Where f finds something. */
  function FoundAt<A, B>(f: A -> Option<B>, s: seq<A>): set<int> {
    set i | 0 <= i < |s| && f(s[i]).Some?
  }

  lemma {:induction false} PickCounts<A, B>(f: A -> Option<B>, s: seq<A>)
    ensures |Pick(f, s)| == |FoundAt(f, s)|
  {
    if s != [] {
      var front, n := s[..|s| - 1], |s| - 1;
      PickCounts(f, front);
      var all, some := FoundAt(f, s), FoundAt(f, front);
      assert s == front + [s[n]];
      PickSnoc(f, front, s[n]);
      if f(s[n]).Some? { assert all == some + {n}; } else { assert all == some; }
    }
  }

  /** If f finds something at i, it finds one thing exactly when only there. */
  lemma {:induction false} PickOnly<A, B>(f: A -> Option<B>, s: seq<A>, i: nat)
    requires i < |s| && f(s[i]).Some?
    ensures |Pick(f, s)| == 1 <==> forall j :: 0 <= j < |s| && f(s[j]).Some? ==> j == i
    ensures |Pick(f, s)| == 1 ==> Pick(f, s) == [f(s[i]).value]
  {
    var a, b := s[..i], s[i + 1..];
    assert s == a + [s[i]] + b;
    PickAround(f, a, s[i], b);
    PickNothing(f, a);
    PickNothing(f, b);
    NowhereElse(f, s, i);
  }

  lemma NowhereElse<A, B>(f: A -> Option<B>, s: seq<A>, i: nat)
    requires i < |s|
    ensures
      var a, b := s[..i], s[i + 1..];
      (forall j :: 0 <= j < |s| && f(s[j]).Some? ==> j == i) <==>
      (forall j :: 0 <= j < |a| ==> f(a[j]).None?) && forall j :: 0 <= j < |b| ==> f(b[j]).None?
  {
    var a, b := s[..i], s[i + 1..];
    assert forall j :: 0 <= j < |a| ==> a[j] == s[j];
    assert forall j :: 0 <= j < |b| ==> b[j] == s[i + 1 + j];
    assert forall j :: i < j < |s| ==> s[j] == b[j - i - 1];
  }

  lemma {:induction false} PickPermutes<A, B>(f: A -> Option<B>, a: seq<A>, b: seq<A>)
    requires multiset(a) == multiset(b)
    ensures multiset(Pick(f, a)) == multiset(Pick(f, b))
    decreases |a|
  {
    if a == [] {
      assert |b| == |multiset(b)|;
    } else {
      var front, x := a[..|a| - 1], a[|a| - 1];
      assert a == front + [x];
      assert x in multiset(b);
      var j :| 0 <= j < |b| && b[j] == x;
      assert b == b[..j] + [x] + b[j + 1..];
      assert multiset(front) == multiset(a) - multiset{x};
      assert multiset(b[..j] + b[j + 1..]) == multiset(b) - multiset{x};
      PickPermutes(f, front, b[..j] + b[j + 1..]);
      PickAround(f, b[..j], x, b[j + 1..]);
    }
  }

  // ---- Go's integer division -------------------------------------------------

  function Quo(a: int, b: int): int
    requires b > 0
  {
    if a >= 0 then a / b else -((-a) / b)
  }

  function Rem(a: int, b: int): int
    requires b > 0
  {
    a - Quo(a, b) * b
  }

  // ---- Floor division: the few facts every grid argument reduces to ----------

  /** Quotient and remainder are the only pair that fits. */
  lemma DivModUnique(a: int, b: int, q: int, r: int)
    requires b > 0 && a == q * b + r && 0 <= r < b
    ensures a / b == q && a % b == r
  {
    var q', r' := a / b, a % b;
    assert a == q' * b + r';
    assert (q - q') * b == r' - r;
    if q > q' { MulMono(1, q - q', b); }
    if q < q' { MulMono(q - q', -1, b); }
  }

  lemma MulMono(x: int, y: int, b: int)
    requires x <= y && b >= 0
    ensures x * b <= y * b
  {
  }

  /** Adding a multiple of the modulus changes nothing. */
  lemma ModShift(a: int, k: int, n: int)
    requires n > 0
    ensures (a + k * n) % n == a % n
  {
    DivModUnique(a + k * n, n, a / n + k, a % n);
  }

  /** Two numbers share a residue exactly when their difference is a multiple. */
  lemma ModCongruent(a: int, b: int, n: int)
    requires n > 0 && a % n == b % n
    ensures a == b + (a / n - b / n) * n
  {
  }

  /** A residue may be taken early inside a sum. */
  lemma ModAdd(a: int, b: int, n: int)
    requires n > 0
    ensures (a % n + b) % n == (a + b) % n
    ensures (a + b % n) % n == (a + b) % n
  {
    ModShift(a % n + b, a / n, n);
    assert a % n + b + (a / n) * n == a + b;
    ModShift(a + b % n, b / n, n);
    assert a + b % n + (b / n) * n == a + b;
  }

  /** Go's remainder has the sign of the dividend. */
  lemma RemIs(a: int, n: int)
    requires n > 0
    ensures a >= 0 ==> Rem(a, n) == a % n
    ensures a < 0 ==> Rem(a, n) == -((-a) % n)
  {
  }

  lemma NegatedMod(x: int, n: int)
    requires n > 0
    ensures (-x) % n == (n - x % n) % n
  {
    var q := x / n;
    assert -x == (n - x % n) + (-q - 1) * n by { Distribute(-q, 1, n); }
    ModShift(n - x % n, -q - 1, n);
  }

  /** Go's idiom `(a%n + n) % n` is the non-negative residue. */
  lemma WrapIsMod(a: int, n: int)
    requires n > 0
    ensures Rem(Rem(a, n) + n, n) == a % n
  {
    RemIs(a, n);
    var r := Rem(a, n);
    assert -n < r < n;
    RemIs(r + n, n);
    if a >= 0 {
      DivModUnique(r + n, n, 1, r);
    } else {
      NegatedMod(-a, n);
    }
  }

  /** (a%n + n) % n, as the Go code spells it. */
  function Residue(a: int, n: int): (r: int)
    requires n > 0
    ensures r == a % n
  {
    WrapIsMod(a, n);
    Rem(Rem(a, n) + n, n)
  }

  lemma Distribute(x: int, y: int, b: int)
    ensures (x + y) * b == x * b + y * b && (x - y) * b == x * b - y * b
  {
  }

  /** j slots of length t are whole periods of n slots plus the slots left over. */
  lemma Periods(j: int, n: int, t: int)
    requires n > 0
    ensures j * t == (j / n) * (n * t) + (j % n) * t
  {
    var q, r := j / n, j % n;
    Distribute(q * n, r, t);
    assert j == q * n + r;
    assert q * n * t == q * (n * t);
  }

  /** Flooring twice is flooring once by the product. */
  lemma DivDiv(a: int, b: int, c: int)
    requires b > 0 && c > 0
    ensures b * c > 0 && (a / b) / c == a / (b * c)
  {
    var q := (a / b) / c;
    var r := ((a / b) % c) * b + a % b;
    assert a == (a / b) * b + a % b;
    assert a / b == q * c + (a / b) % c;
    assert a == q * (c * b) + r by {
      assert (q * c + (a / b) % c) * b == (q * c) * b + ((a / b) % c) * b;
      assert (q * c) * b == q * (c * b);
    }
    MulMono((a / b) % c, c - 1, b);
    assert (c - 1) * b == c * b - b;
    MulMono(0, (a / b) % c, b);
    assert c * b == b * c;
    MulMono(1, c, b);
    DivModUnique(a, b * c, q, r);
  }
}
