/**
 * The two pieces of java.lang.String behaviour the model depends on:
 * `compareTo` (the order a TreeSet of edges is sorted by) and `hashCode`
 * (which Edge.equals compares). Characters are compared by their numeric
 * value, as `compareTo` compares char values.
 */
module JavaStrings {

  const TWO_31: int := 0x8000_0000
  const TWO_32: int := 0x1_0000_0000

  /** Truncation of an unbounded integer to Java's 32-bit two's-complement `int`. */
  function Wrap32(x: int): (r: int)
    ensures -TWO_31 <= r < TWO_31
    ensures (x - r) % TWO_32 == 0
  {
    (x + TWO_31) % TWO_32 - TWO_31
  }

  /** String.hashCode: h = 31 * h + c over the characters, in `int` arithmetic. */
  function Hash(s: string): (h: int)
    ensures -TWO_31 <= h < TWO_31
  {
    if s == [] then 0 else Wrap32(31 * Hash(s[..|s| - 1]) + s[|s| - 1] as int)
  }

  /** "Aa" and "BB" have the same hash code, 2112. */
  lemma {:induction false} HashAaBB()
    ensures Hash("Aa") == Hash("BB") == 2112
  {
    assert "Aa"[..1] == "A" && "BB"[..1] == "B";
    assert "A"[..0] == "" && "B"[..0] == "";
    assert Hash("A") == 65 && Hash("B") == 66;
  }

  /**
   * String.compareTo: the difference of the first differing characters, or
   * the difference of the lengths when one string is a prefix of the other.
   */
  function CompareTo(a: string, b: string): (r: int)
    ensures |a| <= |b| && a == b[..|a|] ==> r == |a| - |b|
    ensures |b| <= |a| && b == a[..|b|] ==> r == |a| - |b|
    decreases |a|
  {
    if |a| == 0 || |b| == 0 then |a| - |b|
    else if a[0] != b[0] then a[0] as int - b[0] as int
    else
      assert |a| <= |b| && a == b[..|a|] ==> a[1..] == b[1..][..|a| - 1];
      assert |b| <= |a| && b == a[..|b|] ==> b[1..] == a[1..][..|b| - 1];
      CompareTo(a[1..], b[1..])
  }

  lemma {:induction false} CompareToZeroIffEqual(a: string, b: string)
    ensures CompareTo(a, b) == 0 <==> a == b
    decreases |a|
  {
    if |a| == 0 || |b| == 0 {
    } else if a[0] != b[0] {
    } else {
      CompareToZeroIffEqual(a[1..], b[1..]);
      if a[1..] == b[1..] {
        assert a == [a[0]] + a[1..] && b == [b[0]] + b[1..];
      }
    }
  }

  lemma {:induction false} CompareToAntisymmetric(a: string, b: string)
    ensures CompareTo(a, b) == -CompareTo(b, a)
    decreases |a|
  {
    if |a| == 0 || |b| == 0 {
    } else if a[0] != b[0] {
    } else {
      CompareToAntisymmetric(a[1..], b[1..]);
    }
  }

  lemma {:induction false} CompareToTransitive(a: string, b: string, c: string)
    requires CompareTo(a, b) < 0 && CompareTo(b, c) < 0
    ensures CompareTo(a, c) < 0
    decreases |a|
  {
    if |a| == 0 || |b| == 0 || |c| == 0 {
    } else if a[0] != b[0] || b[0] != c[0] {
    } else {
      CompareToTransitive(a[1..], b[1..], c[1..]);
    }
  }
}
