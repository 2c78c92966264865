/** Result and option types shared by every module of the model. */
module Wrappers {

  datatype Option<+T> = None | Some(value: T)

  datatype Result<+T, +E> = Ok(value: T) | Err(error: E)
}

/** The bounds of machine integers, and the digits their texts are made of. */
module Integers {

  const I32_MAX: int := 0x7FFF_FFFF
  const I64_MAX: int := 0x7FFF_FFFF_FFFF_FFFF
  const U32_MAX: nat := 0xFFFF_FFFF
  const U64_MAX: nat := 0xFFFF_FFFF_FFFF_FFFF

  function Min(a: int, b: int): int { if a < b then a else b }

  function Max(a: int, b: int): int { if a < b then b else a }

  predicate IsDigit(c: char) { '0' <= c <= '9' }
}

/** Cardinality and maximum facts about finite sets, used by the counting arguments. */
module FiniteSets {

  lemma {:induction false} SubsetCardinality<T>(small: set<T>, large: set<T>)
    requires small <= large
    ensures |small| <= |large|
    ensures |small| == |large| ==> small == large
    decreases large
  {
    if x :| x in large {
      SubsetCardinality(small - {x}, large - {x});
      if x in small {
        assert |small| == |small - {x}| + 1;
        assert small == (small - {x}) + {x};
      } else {
        assert small - {x} == small;
      }
      assert large == (large - {x}) + {x};
    }
  }

  /** Every finite non-empty set of integers has a greatest element. */
  lemma {:induction false} MaximumExists(s: set<int>)
    requires |s| > 0
    ensures exists m :: m in s && forall x :: x in s ==> x <= m
    decreases |s|
  {
    var a :| a in s;
    var above := set x | x in s && a < x;
    if b :| b in above {
      SubsetCardinality(above, s - {a});
      MaximumExists(above);
      var m :| m in above && forall x :: x in above ==> x <= m;
      forall x | x in s ensures x <= m {
        assert x <= a || x in above;
      }
    } else {
      forall x | x in s ensures x <= a {
        assert x !in above;
      }
    }
  }
}

/** Powers of two. */
module Powers {

  function Pow2(n: nat): (p: nat)
    ensures p > 0
  {
    if n == 0 then 1 else 2 * Pow2(n - 1)
  }

  lemma Pow2Of64()
    ensures Pow2(64) == 0x1_0000_0000_0000_0000
  {
    assert Pow2(8) == 0x1_00;
    assert Pow2(16) == 0x1_0000;
    assert Pow2(24) == 0x1_0000_00;
    assert Pow2(32) == 0x1_0000_0000;
    assert Pow2(40) == 0x1_0000_0000_00;
    assert Pow2(48) == 0x1_0000_0000_0000;
    assert Pow2(56) == 0x1_0000_0000_0000_00;
  }
}
