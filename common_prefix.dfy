/**
 * The longest common prefix of two strings, as `os.path.commonprefix` computes
 * it for a two-element list: character by character, with no notion of path
 * components or URL structure.
 */
module CommonPrefixes {

  /** `a` and `b` do not continue with the same character after position `n`. */
  predicate DivergeAt(a: string, b: string, n: nat)
    requires n <= |a| && n <= |b|
  {
    n == |a| || n == |b| || a[n] != b[n]
  }

  /**
   * The longest common prefix of `a` and `b`: a prefix of both, after which
   * the two strings end or disagree.
   */
  function CommonPrefix(a: string, b: string): (p: string)
    ensures p <= a && p <= b
    ensures DivergeAt(a, b, |p|)
  {
    if a == [] || b == [] || a[0] != b[0] then []
    else [a[0]] + CommonPrefix(a[1..], b[1..])
  }

  /** Every common prefix of `a` and `b` is a prefix of `CommonPrefix(a, b)`. */
  lemma CommonPrefixIsLongest(a: string, b: string, q: string)
    requires q <= a && q <= b
    ensures q <= CommonPrefix(a, b)
  {
  }

  /**
   * A common prefix after which the strings diverge is THE common prefix:
   * this pins `CommonPrefix` down independently of how it is computed.
   */
  lemma CommonPrefixUnique(a: string, b: string, p: string)
    requires p <= a && p <= b && DivergeAt(a, b, |p|)
    ensures CommonPrefix(a, b) == p
  {
  }

  /** The order of the two strings does not matter. */
  lemma CommonPrefixSymmetric(a: string, b: string)
    ensures CommonPrefix(a, b) == CommonPrefix(b, a)
  {
  }

  /** A string shares all of itself with itself. */
  lemma CommonPrefixOfSelf(a: string)
    ensures CommonPrefix(a, a) == a
  {
  }
}
