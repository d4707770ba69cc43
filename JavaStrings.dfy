/** Java's String.compareTo, and the strict total order it induces on strings. */
module JavaStrings {

  /** `a.compareTo(b)`: the difference of the first pair of differing characters,
      or the difference of the lengths when one string is a prefix of the other. */
  function CompareTo(a: string, b: string): int
    decreases |a|
  {
    if |a| == 0 || |b| == 0 then |a| - |b|
    else if a[0] != b[0] then a[0] as int - b[0] as int
    else CompareTo(a[1..], b[1..])
  }

  /** `a.compareTo(b) < 0` */
  predicate Less(a: string, b: string) {
    CompareTo(a, b) < 0
  }

  lemma {:induction false} CompareToZero(a: string, b: string)
    ensures CompareTo(a, b) == 0 <==> a == b
    decreases |a|
  {
    if |a| != 0 && |b| != 0 && a[0] == b[0] {
      CompareToZero(a[1..], b[1..]);
      assert a == [a[0]] + a[1..] && b == [b[0]] + b[1..];
    }
  }

  lemma {:induction false} CompareToFlip(a: string, b: string)
    ensures CompareTo(b, a) == -CompareTo(a, b)
    decreases |a|
  {
    if |a| != 0 && |b| != 0 && a[0] == b[0] {
      CompareToFlip(a[1..], b[1..]);
    }
  }

  lemma LessIrreflexive(a: string)
    ensures !Less(a, a)
  {
    CompareToZero(a, a);
  }

  /** `a.compareTo(b) > 0` says that b comes first. */
  lemma GreaterIsLess(a: string, b: string)
    ensures CompareTo(a, b) > 0 <==> Less(b, a)
    ensures CompareTo(a, b) < 0 <==> Less(a, b)
  {
    CompareToFlip(a, b);
  }

  lemma {:induction false} LessTrans(a: string, b: string, c: string)
    requires Less(a, b) && Less(b, c)
    ensures Less(a, c)
    decreases |a|
  {
    if |a| != 0 && |b| != 0 && |c| != 0 && a[0] == b[0] && b[0] == c[0] {
      LessTrans(a[1..], b[1..], c[1..]);
    }
  }

  lemma LessTotal(a: string, b: string)
    ensures a == b || Less(a, b) || Less(b, a)
  {
    CompareToZero(a, b);
    CompareToFlip(a, b);
  }
}
