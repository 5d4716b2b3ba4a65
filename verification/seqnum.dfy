/**
  Serial-number comparison on 32-bit sequence counters (section 3.2 of
  RFC 1982): `a` is before `b` when going forward from `a` reaches `b` in
  fewer than PACKET_HALF_SEQ steps.
 */
module SeqNum {
  import opened Common

  /** Half the range of a 32-bit counter. */
  const PACKET_HALF_SEQ: int := 0x8000_0000

  /** The test written out at every ordering decision of the stream reassembler:
      `(b > a && b - a < HALF) || (b < a && a - b > HALF)`. */
  predicate Before(a: U32, b: U32)
  {
    (b > a && b - a < PACKET_HALF_SEQ) || (b < a && a - b > PACKET_HALF_SEQ)
  }

  /** The forward distance from `a` to `b`. */
  function Distance(a: U32, b: U32): U32
  {
    Sub32(b, a)
  }

  /** "Before" depends only on the forward distance: it holds exactly when
      that distance is strictly between 0 and half the range. */
  lemma {:induction false} BeforeIffDistance(a: U32, b: U32)
    ensures Before(a, b) <==> 0 < Distance(a, b) < PACKET_HALF_SEQ
  {
    if b >= a {
      assert Distance(a, b) == b - a;
    } else {
      assert Distance(a, b) == b - a + U32_MODULUS;
    }
  }

  /** No value is before itself, and "before" never holds in both directions. */
  lemma {:induction false} BeforeIrreflexiveAsymmetric(a: U32, b: U32)
    ensures !Before(a, a)
    ensures Before(a, b) ==> !Before(b, a)
  {
  }

  /** The comparison is the same after adding `k` to both sides (mod 2^32). */
  lemma {:induction false} BeforeTranslationInvariant(a: U32, b: U32, k: U32)
    ensures Before(a, b) <==> Before(Add32(a, k), Add32(b, k))
  {
    DistanceTranslationInvariant(a, b, k);
    BeforeIffDistance(a, b);
    BeforeIffDistance(Add32(a, k), Add32(b, k));
  }

  lemma {:induction false} DistanceTranslationInvariant(a: U32, b: U32, k: U32)
    ensures Distance(Add32(a, k), Add32(b, k)) == Distance(a, b)
  {
    var a', b' := Add32(a, k), Add32(b, k);
    assert a' == a + k || a' == a + k - U32_MODULUS;
    assert b' == b + k || b' == b + k - U32_MODULUS;
  }

  /** For any two counters exactly one of four things holds: equal, one before
      the other, the other before the one, or they are exactly half the range
      apart, where neither is before the other. */
  lemma {:induction false} FourWayClassification(a: U32, b: U32)
    ensures a == b || Before(a, b) || Before(b, a) || Distance(a, b) == PACKET_HALF_SEQ
    ensures Distance(a, b) == PACKET_HALF_SEQ ==> a != b && !Before(a, b) && !Before(b, a)
    ensures a == b ==> !Before(a, b) && !Before(b, a)
  {
    BeforeIffDistance(a, b);
    BeforeIffDistance(b, a);
    if a != b {
      assert Distance(b, a) == U32_MODULUS - Distance(a, b);
    }
  }

  /** The two counters 0 and 2^31 are neither equal nor ordered. */
  lemma {:induction false} AntipodesUnordered()
    ensures !Before(0, PACKET_HALF_SEQ) && !Before(PACKET_HALF_SEQ, 0)
  {
  }
}
