/**
 * Levenshtein edit distance (unit-cost insertions, deletions and
 * substitutions), the quantity the `Levenshtein.distance` library call
 * returns.  Defined by the classic recurrence on the first characters.
 */
module EditDistance {

  function Min3(x: nat, y: nat, z: nat): nat {
    if x <= y && x <= z then x else if y <= z then y else z
  }

  function Distance(a: string, b: string): nat
    decreases |a| + |b|
  {
    if |a| == 0 then |b|
    else if |b| == 0 then |a|
    else Min3(Distance(a[1..], b) + 1,
              Distance(a, b[1..]) + 1,
              Distance(a[1..], b[1..]) + (if a[0] == b[0] then 0 else 1))
  }

  /** Every string is at distance 0 from itself. */
  lemma {:induction false} DistanceToSelf(a: string)
    ensures Distance(a, a) == 0
  {
    if |a| > 0 {
      DistanceToSelf(a[1..]);
    }
  }

  /** Distance 0 only between equal strings. */
  lemma {:induction false} DistanceZeroMeansEqual(a: string, b: string)
    requires Distance(a, b) == 0
    ensures a == b
    decreases |a| + |b|
  {
    if |a| > 0 && |b| > 0 {
      DistanceZeroMeansEqual(a[1..], b[1..]);
      assert a == [a[0]] + a[1..] && b == [b[0]] + b[1..];
    }
  }

  /** The distance does not depend on the order of its arguments. */
  lemma {:induction false} DistanceSymmetric(a: string, b: string)
    ensures Distance(a, b) == Distance(b, a)
    decreases |a| + |b|
  {
    if |a| > 0 && |b| > 0 {
      DistanceSymmetric(a[1..], b);
      DistanceSymmetric(a, b[1..]);
      DistanceSymmetric(a[1..], b[1..]);
    }
  }

  /** The distance lies between the length difference and the longer length. */
  lemma {:induction false} DistanceBounds(a: string, b: string)
    ensures Distance(a, b) >= |a| - |b| && Distance(a, b) >= |b| - |a|
    ensures Distance(a, b) <= if |a| <= |b| then |b| else |a|
    decreases |a| + |b|
  {
    if |a| > 0 && |b| > 0 {
      DistanceBounds(a[1..], b);
      DistanceBounds(a, b[1..]);
      DistanceBounds(a[1..], b[1..]);
    }
  }

  /** A shared first character costs nothing. */
  lemma {:induction false} DistanceCommonPrefix(p: string, a: string, b: string)
    ensures Distance(p + a, p + b) <= Distance(a, b)
  {
    if |p| > 0 {
      var x, y := p + a, p + b;
      assert x[1..] == p[1..] + a && y[1..] == p[1..] + b;
      assert |x| > 0 && |y| > 0 && x[0] == y[0];
      DistanceCommonPrefix(p[1..], a, b);
      assert Distance(x, y) <= Distance(x[1..], y[1..]);
    } else {
      assert p + a == a && p + b == b;
    }
  }

  /** Deleting one leading character costs at most one. */
  lemma DistanceDeleteFirst(c: char, a: string, b: string)
    requires |b| > 0
    ensures Distance([c] + a, b) <= Distance(a, b) + 1
  {
    assert ([c] + a)[1..] == a;
  }

  /** The reference value distance("salom", "salm") == 1. */
  lemma DistanceSalomSalm(a: string, b: string)
    requires a == "salom" && b == "salm"
    ensures Distance(a, b) == 1
  {
    assert a == "sal" + ([a[3]] + "m") && b == "sal" + "m";
    DistanceToSelf("m");
    DistanceDeleteFirst(a[3], "m", "m");
    DistanceCommonPrefix("sal", [a[3]] + "m", "m");
    DistanceBounds(a, b);
  }
}
