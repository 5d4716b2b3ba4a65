/**
  Shared vocabulary of the model: bytes, 32-bit unsigned arithmetic, the two
  directions of a connection, per-direction pairs and the C return codes.
 */
module Common {

  /** One octet of a captured buffer. */
  type Byte = x: int | 0 <= x < 256

  const U32_MODULUS: int := 0x1_0000_0000

  /** A C `uint32_t`. */
  type U32 = x: int | 0 <= x < U32_MODULUS

  /** `a + b` on `uint32_t`, wrapping modulo 2^32. */
  function Add32(a: U32, b: U32): U32
  {
    (a + b) % U32_MODULUS
  }

  /** `a - b` on `uint32_t`, wrapping modulo 2^32 (Dafny's `%` is never negative). */
  function Sub32(a: U32, b: U32): U32
  {
    (a - b) % U32_MODULUS
  }

  lemma {:induction false} AddSubInverse(a: U32, b: U32)
    ensures Sub32(Add32(a, b), a) == b
    ensures Add32(a, Sub32(b, a)) == b
  {
  }

  datatype Option<+T> = None | Some(value: T)

  /** A connection direction; CT_DIR_FWD is 0 and CT_DIR_REV is 1. */
  datatype Dir = Fwd | Rev {
    function Reverse(): (r: Dir)
      ensures r != this
    {
      if Fwd? then Rev else Fwd
    }
  }

  /** The direction numbered `i` (0 forward, 1 reverse). */
  function DirOfIndex(i: nat): Dir
    requires i < 2
  {
    if i == 0 then Fwd else Rev
  }

  /** A C array indexed by direction (`x[CT_DIR_TOT]`). */
  datatype PerDir<T> = PerDir(fwd: T, rev: T) {
    function Get(d: Dir): T
    {
      if d.Fwd? then fwd else rev
    }

    function Set(d: Dir, v: T): (r: PerDir<T>)
      ensures r.Get(d) == v
      ensures r.Get(d.Reverse()) == Get(d.Reverse())
    {
      if d.Fwd? then PerDir(v, rev) else PerDir(fwd, v)
    }
  }

  function Min(a: int, b: int): int
  {
    if a <= b then a else b
  }

  /** The two return codes of the packet layer, POM_OK and POM_ERR. */
  datatype Code = PomOk | PomErr

  /** No element occurs twice: the nodes of a doubly linked list. */
  predicate Distinct<T(==)>(s: seq<T>)
  {
    forall i, j :: 0 <= i < j < |s| ==> s[i] != s[j]
  }

  /** Pushing a new element on the front keeps a list free of repeats. */
  lemma {:induction false} DistinctPush<T>(x: T, s: seq<T>)
    requires Distinct(s) && x !in s
    ensures Distinct([x] + s)
  {
    forall i, j | 0 <= i < j < |[x] + s| ensures ([x] + s)[i] != ([x] + s)[j] {
      assert ([x] + s)[j] == s[j - 1];
      if i > 0 {
        assert ([x] + s)[i] == s[i - 1];
      }
    }
  }

  /** Popping the front of a list free of repeats leaves one, without the popped element. */
  lemma {:induction false} DistinctPop<T>(s: seq<T>)
    requires Distinct(s) && s != []
    ensures Distinct(s[1..]) && s[0] !in s[1..]
  {
    forall j | 0 <= j < |s[1..]| ensures s[1..][j] != s[0] {
      assert s[1..][j] == s[j + 1];
    }
  }

  /** The list with `x` unlinked. */
  function Remove<T(==,!new)>(s: seq<T>, x: T): (r: seq<T>)
    ensures forall y :: y in r <==> y in s && y != x
    ensures x !in s ==> r == s
    ensures Distinct(s) ==> Distinct(r)
    ensures Distinct(s) && x in s ==> |r| == |s| - 1
  {
    if s == [] then []
    else
      var rest := Remove(s[1..], x);
      assert Distinct(s) ==> Distinct(s[1..]) && s[0] !in s[1..] by {
        if Distinct(s) {
          DistinctPop(s);
        }
      }
      if s[0] == x then rest else [s[0]] + rest
  }
}
