/**
 * A key/value pair ordered by key first and by value only when the keys
 * compare equal (src/KVPair.java). Both components are generic and their
 * `compareTo` is supplied as a function, as `Comparable` supplies it in
 * the source.
 */
module KVPairs {

  /** The sign of a `compareTo` result. */
  function Sign(c: int): int {
    if c < 0 then -1 else if c == 0 then 0 else 1
  }

  /** The pair order: the key comparison unless it is 0, else the value comparison. */
  function Lexicographic(keyCmp: int, valueCmp: int): (r: int)
    ensures r == 0 <==> keyCmp == 0 && valueCmp == 0
    ensures keyCmp != 0 ==> Sign(r) == Sign(keyCmp)
    ensures keyCmp == 0 ==> Sign(r) == Sign(valueCmp)
  {
    if keyCmp == 0 then valueCmp else keyCmp
  }

  /** Swapping both operands of both comparisons negates the pair comparison's sign. */
  lemma LexicographicAntisymmetric(k1: int, k2: int, v1: int, v2: int)
    requires Sign(k2) == -Sign(k1) && Sign(v2) == -Sign(v1)
    ensures Sign(Lexicographic(k2, v2)) == -Sign(Lexicographic(k1, v1))
  {
  }

  class KVPair<K, V> {
    var key: K
    var value: V

    constructor(myKey: K, myValue: V)
      ensures key == myKey && value == myValue
    {
      key := myKey;
      value := myValue;
    }

    function GetKey(): (k: K)
      reads this
      ensures k == key
    {
      key
    }

    function GetValue(): (v: V)
      reads this
      ensures v == value
    {
      value
    }

    /** setKey: replaces the key and leaves the value alone. */
    method SetKey(myKey: K)
      modifies this
      ensures key == myKey && value == old(value)
    {
      key := myKey;
    }

    /** setValue: replaces the value and leaves the key alone. */
    method SetValue(myValue: V)
      modifies this
      ensures value == myValue && key == old(key)
    {
      value := myValue;
    }

    /**
     * compareTo: zero exactly when both keys and both values compare 0;
     * otherwise the key comparison decides unless it is 0.
     */
    function CompareTo(other: KVPair<K, V>, keyCmp: (K, K) -> int, valueCmp: (V, V) -> int): (r: int)
      reads this, other
      ensures r == 0 <==> keyCmp(key, other.key) == 0 && valueCmp(value, other.value) == 0
      ensures keyCmp(key, other.key) != 0 ==> Sign(r) == Sign(keyCmp(key, other.key))
      ensures keyCmp(key, other.key) == 0 ==> Sign(r) == Sign(valueCmp(value, other.value))
    {
      Lexicographic(keyCmp(key, other.GetKey()), valueCmp(value, other.GetValue()))
    }
  }

  /** When both component orders are antisymmetric, so is the pair order. */
  lemma CompareToAntisymmetric<K, V>(p: KVPair<K, V>, q: KVPair<K, V>,
                                     keyCmp: (K, K) -> int, valueCmp: (V, V) -> int)
    requires Sign(keyCmp(q.key, p.key)) == -Sign(keyCmp(p.key, q.key))
    requires Sign(valueCmp(q.value, p.value)) == -Sign(valueCmp(p.value, q.value))
    ensures Sign(q.CompareTo(p, keyCmp, valueCmp)) == -Sign(p.CompareTo(q, keyCmp, valueCmp))
  {
    LexicographicAntisymmetric(keyCmp(p.key, q.key), keyCmp(q.key, p.key),
                               valueCmp(p.value, q.value), valueCmp(q.value, p.value));
  }
}
