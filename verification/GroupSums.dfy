/** Sums over the distinct keys of a sequence, as a dictionary filled in order would give. */
module GroupSums {
  import opened Sorting

  /** The distinct elements, in order of first occurrence. */
  function Keys<T(==)>(s: seq<T>): (keys: seq<T>)
    ensures forall i :: 0 <= i < |keys| ==> keys[i] in s
    ensures forall i :: 0 <= i < |s| ==> s[i] in keys
    ensures forall i, j :: 0 <= i < j < |keys| ==> keys[i] != keys[j]
  {
    if s == [] then []
    else
      var before := Keys(s[..|s|-1]);
      assert s == s[..|s|-1] + [s[|s|-1]];
      if s[|s|-1] in before then before else before + [s[|s|-1]]
  }

  lemma KeysOneMore<T>(s: seq<T>, x: T)
    ensures x in Keys(s) <==> x in s
    ensures Keys(s + [x]) == if x in s then Keys(s) else Keys(s) + [x]
  {
    assert (s + [x])[..|s|] == s;
  }

  function SumOver<T>(keys: seq<T>, f: T -> real): real {
    if keys == [] then 0.0 else SumOver(keys[..|keys|-1], f) + f(keys[|keys|-1])
  }

  lemma {:induction false} SumOverSame<T>(keys: seq<T>, f: T -> real, g: T -> real)
    requires forall i :: 0 <= i < |keys| ==> f(keys[i]) == g(keys[i])
    ensures SumOver(keys, f) == SumOver(keys, g)
  {
    if keys == [] {
    } else {
      SumOverSame(keys[..|keys|-1], f, g);
    }
  }

  /** A change at one key changes the sum by as much. */
  lemma {:induction false} SumOverChange<T>(keys: seq<T>, f: T -> real, g: T -> real, k: nat)
    requires Distinct(keys) && k < |keys|
    requires forall i :: 0 <= i < |keys| && i != k ==> f(keys[i]) == g(keys[i])
    ensures SumOver(keys, g) == SumOver(keys, f) + g(keys[k]) - f(keys[k])
  {
    if k == |keys| - 1 {
      SumOverSame(keys[..k], f, g);
    } else {
      SumOverChange(keys[..|keys|-1], f, g, k);
    }
  }

  /** One more element changes the sum over keys at its own key only; a key not seen before
      starts from nothing. */
  lemma SumOverOneMore<T>(s: seq<T>, x: T, f: T -> real, g: T -> real)
    requires forall i :: 0 <= i < |s| && s[i] != x ==> f(s[i]) == g(s[i])
    requires x !in s ==> f(x) == 0.0
    ensures SumOver(Keys(s + [x]), g) == SumOver(Keys(s), f) + g(x) - f(x)
  {
    var keys := Keys(s);
    assert (s + [x])[..|s|] == s;
    if x in keys {
      var k: nat :| k < |keys| && keys[k] == x;
      forall i | 0 <= i < |keys| && i != k ensures f(keys[i]) == g(keys[i]) {
        assert keys[i] in keys;
      }
      SumOverChange(keys, f, g, k);
    } else {
      forall i | 0 <= i < |keys| ensures f(keys[i]) == g(keys[i]) {
        assert keys[i] in keys;
      }
      SumOverSame(keys, f, g);
      assert (keys + [x])[..|keys|] == keys;
    }
  }
}
