/** Byte strings, their lexicographic order, and the small option type every module shares. */
module Bytes {
  newtype byte = x: int | 0 <= x < 256

  type Bytes = seq<byte>

  datatype Option<+T> = None | Some(value: T) {
    predicate IsFailure() {
      None?
    }

    function PropagateFailure<U>(): Option<U>
      requires None?
    {
      None
    }

    function Extract(): T
      requires Some?
    {
      value
    }
  }

  /** Lexicographic order: a proper prefix comes first. */
  predicate Less(a: Bytes, b: Bytes) {
    b != [] && (a == [] || a[0] < b[0] || (a[0] == b[0] && Less(a[1..], b[1..])))
  }

  lemma {:induction false} LessIrreflexive(a: Bytes)
    ensures !Less(a, a)
  {
    if a != [] {
      LessIrreflexive(a[1..]);
    }
  }

  lemma {:induction false} LessTransitive(a: Bytes, b: Bytes, c: Bytes)
    requires Less(a, b) && Less(b, c)
    ensures Less(a, c)
  {
    if a != [] && a[0] == b[0] && b[0] == c[0] {
      LessTransitive(a[1..], b[1..], c[1..]);
    }
  }

  lemma {:induction false} LessTotal(a: Bytes, b: Bytes)
    ensures Less(a, b) || a == b || Less(b, a)
  {
    if a != [] && b != [] && a[0] == b[0] {
      LessTotal(a[1..], b[1..]);
      assert a == [a[0]] + a[1..] && b == [b[0]] + b[1..];
    }
  }

  lemma LessAsymmetric(a: Bytes, b: Bytes)
    requires Less(a, b)
    ensures a != b && !Less(b, a)
  {
    LessIrreflexive(a);
    if Less(b, a) {
      LessTransitive(a, b, a);
    }
  }

  /** Past a common prefix, the order is that of the rest. */
  lemma {:induction false} LessAfterPrefix(p: Bytes, a: Bytes, b: Bytes)
    ensures Less(p + a, p + b) == Less(a, b)
  {
    if p == [] {
      assert p + a == a && p + b == b;
    } else {
      assert (p + a)[1..] == p[1..] + a && (p + b)[1..] == p[1..] + b;
      LessAfterPrefix(p[1..], a, b);
    }
  }

  /** The sign of the comparison is the lexicographic order. */
  method CompareBytes(a: Bytes, b: Bytes) returns (c: int)
    ensures c < 0 <==> Less(a, b)
    ensures c == 0 <==> a == b
    ensures c > 0 <==> Less(b, a)
  {
    var minLen := if |a| < |b| then |a| else |b|;
    var i := 0;
    while i < minLen
      invariant 0 <= i <= minLen
      invariant a[..i] == b[..i]
    {
      if a[i] < b[i] || a[i] > b[i] {
        OrderByFirstDifference(a, b, i);
        return if a[i] < b[i] then -1 else 1;
      }
      i := i + 1;
    }
    OrderByFirstDifference(a, b, i);
    return |a| - |b|;
  }

  lemma OrderByFirstDifference(a: Bytes, b: Bytes, i: nat)
    requires i <= |a| && i <= |b| && a[..i] == b[..i]
    requires i < |a| && i < |b| ==> a[i] != b[i]
    ensures Less(a, b) <==> i < |b| && (i == |a| || a[i] < b[i])
    ensures Less(b, a) <==> i < |a| && (i == |b| || b[i] < a[i])
    ensures a == b <==> i == |a| == |b|
  {
    assert a == a[..i] + a[i..] && b == b[..i] + b[i..];
    LessAfterPrefix(a[..i], a[i..], b[i..]);
    LessAfterPrefix(a[..i], b[i..], a[i..]);
  }
}
