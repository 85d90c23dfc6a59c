/** Number of ways to climb `n` stairs taking one or two steps at a time,
    reduced modulo 1000000007. */
module ClimbStairs {

  const Modulus: int := 1_000_000_007

  /** The recurrence the program evaluates: one way for no stairs (and for
      a non-positive `n`), `n` ways for one or two stairs, and otherwise
      the ways that start with a single step plus those that start with a
      double step. */
  function Ways(n: int): nat
    decreases n
  {
    if n <= 0 then 1
    else if n <= 2 then n
    else Ways(n - 1) + Ways(n - 2)
  }

  /** `steps` climbs exactly `n` stairs: every step is 1 or 2, and the
      steps add up to `n`. */
  predicate IsClimb(steps: seq<int>, n: int)
  {
    if steps == [] then n == 0
    else (steps[0] == 1 || steps[0] == 2) && IsClimb(steps[1..], n - steps[0])
  }

  /** `d` put in front of every climb of `climbs`. */
  function StartWith(d: int, climbs: seq<seq<int>>): seq<seq<int>>
  {
    seq(|climbs|, i requires 0 <= i < |climbs| => [d] + climbs[i])
  }

  /** The climbs that start with a single step, then those that start with
      a double step. */
  function Combine(ones: seq<seq<int>>, twos: seq<seq<int>>): seq<seq<int>>
  {
    StartWith(1, ones) + StartWith(2, twos)
  }

  /** Every climb of `n` stairs, listed by its first step. */
  function Climbs(n: nat): seq<seq<int>>
  {
    if n == 0 then [[]]
    else Combine(Climbs(n - 1), if n >= 2 then Climbs(n - 2) else [])
  }

  /** What `Combine` lists: a single step followed by one of `ones`, or a
      double step followed by one of `twos`. */
  lemma InCombine(ones: seq<seq<int>>, twos: seq<seq<int>>, s: seq<int>)
    ensures s in Combine(ones, twos) <==>
            s != [] && ((s[0] == 1 && s[1..] in ones) || (s[0] == 2 && s[1..] in twos))
  {
    var front, back := StartWith(1, ones), StartWith(2, twos);
    if s in front {
      var k :| 0 <= k < |front| && front[k] == s;
      assert s[1..] == ones[k];
    }
    if s in back {
      var k :| 0 <= k < |back| && back[k] == s;
      assert s[1..] == twos[k];
    }
    if s != [] && s[0] == 1 && s[1..] in ones {
      var k :| 0 <= k < |ones| && ones[k] == s[1..];
      assert front[k] == s;
    }
    if s != [] && s[0] == 2 && s[1..] in twos {
      var k :| 0 <= k < |twos| && twos[k] == s[1..];
      assert back[k] == s;
    }
  }

  /** No two positions of `list` hold the same climb. */
  predicate Distinct(list: seq<seq<int>>)
  {
    forall i, j :: 0 <= i < j < |list| ==> list[i] != list[j]
  }

  /** Combining two lists without repeats gives a list without repeats. */
  lemma CombineDistinct(ones: seq<seq<int>>, twos: seq<seq<int>>)
    requires Distinct(ones) && Distinct(twos)
    ensures Distinct(Combine(ones, twos))
  {
    var c := Combine(ones, twos);
    var n1 := |ones|;
    forall i, j | 0 <= i < j < |c|
      ensures c[i] != c[j]
    {
      if j < n1 {
        assert c[i][1..] == ones[i] && c[j][1..] == ones[j];
      } else if n1 <= i {
        assert c[i][1..] == twos[i - n1] && c[j][1..] == twos[j - n1];
      } else {
        assert c[i][0] == 1 && c[j][0] == 2;
      }
    }
  }

  /** A climb of `m` stairs after a first step `d` of 1 or 2 is a climb of
      `m + d` stairs. */
  lemma StepThenClimb(d: int, rest: seq<int>, m: int)
    requires d == 1 || d == 2
    requires IsClimb(rest, m)
    ensures IsClimb([d] + rest, m + d)
  {
    assert ([d] + rest)[1..] == rest;
  }

  /** Putting a single step in front of climbs of `n - 1` stairs and a
      double step in front of climbs of `n - 2` stairs gives climbs of `n`
      stairs. */
  lemma CombineSound(ones: seq<seq<int>>, twos: seq<seq<int>>, n: int)
    requires forall s :: s in ones ==> IsClimb(s, n - 1)
    requires forall s :: s in twos ==> IsClimb(s, n - 2)
    ensures forall s :: s in Combine(ones, twos) ==> IsClimb(s, n)
  {
    forall s | s in Combine(ones, twos)
      ensures IsClimb(s, n)
    {
      InCombine(ones, twos, s);
      var d, rest := s[0], s[1..];
      assert s == [d] + rest;
      StepThenClimb(d, rest, n - d);
    }
  }

  /** Each listed climb reaches exactly `n` with steps of 1 or 2. */
  lemma {:induction false} ClimbsSound(n: nat)
    ensures forall s :: s in Climbs(n) ==> IsClimb(s, n)
  {
    if n == 1 {
      ClimbsSound(0);
      CombineSound(Climbs(0), [], 1);
    } else if n >= 2 {
      ClimbsSound(n - 1);
      ClimbsSound(n - 2);
      CombineSound(Climbs(n - 1), Climbs(n - 2), n);
    }
  }

  /** Every climb of `n` stairs is listed (and no climb reaches a negative
      height). */
  lemma {:induction false} ClimbsComplete(s: seq<int>, n: int)
    requires IsClimb(s, n)
    ensures n >= 0 && s in Climbs(n)
  {
    if s != [] {
      var rest := s[1..];
      if s[0] == 1 {
        assert IsClimb(rest, n - 1);
        ClimbsComplete(rest, n - 1);
        InCombine(Climbs(n - 1), if n >= 2 then Climbs(n - 2) else [], s);
      } else {
        assert IsClimb(rest, n - 2);
        ClimbsComplete(rest, n - 2);
        InCombine(Climbs(n - 1), Climbs(n - 2), s);
      }
    }
  }

  /** No climb is listed twice. */
  lemma {:induction false} ClimbsDistinct(n: nat)
    ensures Distinct(Climbs(n))
  {
    if n > 0 {
      var ones := Climbs(n - 1);
      var twos: seq<seq<int>> := [];
      ClimbsDistinct(n - 1);
      if n >= 2 {
        twos := Climbs(n - 2);
        ClimbsDistinct(n - 2);
      }
      assert Climbs(n) == Combine(ones, twos);
      CombineDistinct(ones, twos);
    }
  }

  /** The recurrence counts the listed climbs, so `Ways(n)` is the number
      of distinct climbs of `n` stairs. */
  lemma {:induction false} ClimbsCount(n: nat)
    ensures |Climbs(n)| == Ways(n)
  {
    if n >= 2 {
      ClimbsCount(n - 1);
      ClimbsCount(n - 2);
    }
  }

  /** Reducing each summand first does not change the reduced sum. */
  lemma AddMod(x: nat, y: nat)
    ensures (x % Modulus + y % Modulus) % Modulus == (x + y) % Modulus
  {
    var qx, qy := x / Modulus, y / Modulus;
    assert x == qx * Modulus + x % Modulus;
    assert y == qy * Modulus + y % Modulus;
    assert x + y == (qx + qy) * Modulus + (x % Modulus + y % Modulus);
  }

  /** The recurrence survives reduction: the reduced count for `i` stairs
      follows from the reduced counts for `i - 2` and `i - 1`. */
  lemma ReducedStep(i: int)
    requires i >= 3
    ensures Ways(i) % Modulus == (Ways(i - 2) % Modulus + Ways(i - 1) % Modulus) % Modulus
  {
    var x, y := Ways(i - 2), Ways(i - 1);
    assert Ways(i) == x + y;
    AddMod(x, y);
  }

  /** Hand10_2: the two-variable loop. `a` and `b` hold the reduced counts
      for `i - 2` and `i - 1` stairs, so both stay below the modulus and
      their sum stays below twice the modulus (far inside a 64-bit int). */
  method Hand10_2(n: int) returns (r: int)
    ensures 0 <= r < Modulus
    ensures r == Ways(n) % Modulus
    ensures n <= 0 ==> r == 1
    ensures 1 <= n <= 2 ==> r == n
  {
    if n <= 0 {
      return 1;
    }
    if n <= 2 {
      return n;
    }
    var a, b := 1, 2;
    var i := 3;
    while i <= n
      invariant 3 <= i <= n + 1
      invariant a == Ways(i - 2) % Modulus
      invariant b == Ways(i - 1) % Modulus
      invariant 0 <= a < Modulus && 0 <= b < Modulus
    {
      ReducedStep(i);
      assert (a + b) % Modulus == Ways(i) % Modulus;
      a, b := b, (a + b) % Modulus;
      i := i + 1;
    }
    assert i == n + 1;
    assert b % Modulus == b;
    r := b % Modulus;
  }
}
