/**
 * A handle is a pointer to a record's payload inside the shared byte
 * buffer: the buffer it reads, the offset of the first payload byte and
 * the payload length (src/Handle.java).
 *
 * The Java handle holds a reference to the buffer array; the model holds
 * the buffer's contents as a value. Payload bytes are written once and
 * never rewritten, so the snapshot reads what the array would.
 */
module Handles {
  import opened Wrappers

  /** An unsigned byte; the value of a byte read back as a character. */
  type Byte = b: int | 0 <= b < 256

  datatype Handle = Handle(memory: seq<Byte>, startingLocation: int, length: int)

  /** What `equals` may be handed: null, a handle, or an object of another class. */
  datatype Reference = Null | HandleRef(handle: Handle) | OtherObject

  function Zeros(n: nat): (z: seq<Byte>)
    ensures |z| == n
    ensures forall i :: 0 <= i < n ==> z[i] == 0
  {
    seq(n, _ => 0)
  }

  /**
   * java.util.Arrays.copyOfRange: it throws (None) when `from` lies outside
   * the array or `from > to`, and pads with zero bytes past the array's end.
   */
  function CopyOfRange(a: seq<Byte>, from: int, to: int): (r: Option<seq<Byte>>)
    ensures r.Some? <==> 0 <= from <= |a| && from <= to
    ensures r.Some? ==> |r.value| == to - from
    ensures r.Some? ==> forall i :: 0 <= i < to - from ==>
              r.value[i] == (if from + i < |a| then a[from + i] else 0)
  {
    if from < 0 || from > |a| || from > to then None
    else if to <= |a| then Some(a[from..to])
    else Some(a[from..] + Zeros(to - |a|))
  }

  /** getStringAt: the bytes the handle covers, one character per byte. */
  function GetStringAt(h: Handle): (r: Option<seq<Byte>>)
    ensures r.Some? <==> 0 <= h.startingLocation <= |h.memory| && 0 <= h.length
    ensures r.Some? ==> |r.value| == h.length
  {
    CopyOfRange(h.memory, h.startingLocation, h.startingLocation + h.length)
  }

  /** A handle whose range lies inside its buffer reads exactly that range. */
  predicate InRange(h: Handle) {
    0 <= h.startingLocation && 0 <= h.length && h.startingLocation + h.length <= |h.memory|
  }

  lemma GetStringAtInRange(h: Handle)
    requires InRange(h)
    ensures GetStringAt(h) == Some(h.memory[h.startingLocation..h.startingLocation + h.length])
  {
    var r := GetStringAt(h).value;
    assert |r| == h.length;
    assert forall i :: 0 <= i < h.length ==> r[i] == h.memory[h.startingLocation + i];
  }

  /**
   * String.compareTo: the difference of the first differing characters,
   * or else the difference of the lengths.
   */
  function CompareStrings(a: seq<Byte>, b: seq<Byte>): int
  {
    if |a| == 0 || |b| == 0 then |a| - |b|
    else if a[0] != b[0] then a[0] - b[0]
    else CompareStrings(a[1..], b[1..])
  }

  lemma {:induction false} CompareStringsZeroIff(a: seq<Byte>, b: seq<Byte>)
    ensures CompareStrings(a, b) == 0 <==> a == b
  {
    if |a| == 0 || |b| == 0 {
    } else if a[0] != b[0] {
    } else {
      CompareStringsZeroIff(a[1..], b[1..]);
      if a[1..] == b[1..] {
        assert a == [a[0]] + a[1..] && b == [b[0]] + b[1..];
      }
    }
  }

  lemma {:induction false} CompareStringsAntisymmetric(a: seq<Byte>, b: seq<Byte>)
    ensures CompareStrings(b, a) == -CompareStrings(a, b)
  {
    if |a| == 0 || |b| == 0 {
    } else if a[0] != b[0] {
    } else {
      CompareStringsAntisymmetric(a[1..], b[1..]);
    }
  }

  lemma {:induction false} CompareStringsTransitive(a: seq<Byte>, b: seq<Byte>, c: seq<Byte>)
    requires CompareStrings(a, b) < 0 && CompareStrings(b, c) < 0
    ensures CompareStrings(a, c) < 0
  {
    if |a| == 0 || |b| == 0 || |c| == 0 {
    } else if a[0] != b[0] || b[0] != c[0] {
    } else {
      CompareStringsTransitive(a[1..], b[1..], c[1..]);
    }
  }

  /**
   * compareTo: the string comparison of the two decoded payloads; None
   * when decoding either one throws.
   */
  function CompareTo(h: Handle, o: Handle): (r: Option<int>)
    ensures r.Some? <==> GetStringAt(h).Some? && GetStringAt(o).Some?
  {
    match (GetStringAt(h), GetStringAt(o))
    case (Some(s), Some(t)) => Some(CompareStrings(s, t))
    case _ => None
  }

  /** Two decodable handles compare equal exactly when their payloads are equal. */
  lemma CompareToZeroIff(h: Handle, o: Handle)
    requires GetStringAt(h).Some? && GetStringAt(o).Some?
    ensures CompareTo(h, o) == Some(0) <==> GetStringAt(h) == GetStringAt(o)
  {
    CompareStringsZeroIff(GetStringAt(h).value, GetStringAt(o).value);
  }

  lemma CompareToAntisymmetric(h: Handle, o: Handle)
    requires GetStringAt(h).Some? && GetStringAt(o).Some?
    ensures CompareTo(o, h).value == -CompareTo(h, o).value
  {
    CompareStringsAntisymmetric(GetStringAt(h).value, GetStringAt(o).value);
  }

  /**
   * equals: false for null and for another class; otherwise the two handles
   * are equal when they have the same length and starting location, whatever
   * buffer each points into.
   */
  function Equals(h: Handle, other: Reference): bool
  {
    match other
    case Null => false
    case OtherObject => false
    case HandleRef(o) => h.length == o.length && h.startingLocation == o.startingLocation
  }

  /** Equal handles over the same buffer read the same payload. */
  lemma EqualsSameString(h: Handle, o: Handle)
    requires Equals(h, HandleRef(o)) && h.memory == o.memory
    ensures GetStringAt(h) == GetStringAt(o)
  {
  }

  /** equals is an equivalence on handles. */
  lemma EqualsEquivalence(a: Handle, b: Handle, c: Handle)
    ensures Equals(a, HandleRef(a))
    ensures Equals(a, HandleRef(b)) ==> Equals(b, HandleRef(a))
    ensures Equals(a, HandleRef(b)) && Equals(b, HandleRef(c)) ==> Equals(a, HandleRef(c))
  {
  }
}
