/**
 * The record layout of the byte buffer of src/DynamicByteArray.java.
 * Each record is a flag byte (1 live, 0 deleted), the payload length as a
 * 16-bit little-endian number, then the payload. Records are packed from
 * position 0 and every byte after the last record is zero.
 */
module ByteLayouts {
  import opened Handles

  /** The longest payload whose length survives the cast to short. */
  const MaxPayload: int := 32767

  datatype Record = Record(live: bool, payload: seq<Byte>)

  /** (byte) (length & 0xff) */
  function LowByte(n: int): Byte
    requires 0 <= n <= MaxPayload
  {
    n % 256
  }

  /** (byte) ((length >> 8) & 0xff) */
  function HighByte(n: int): Byte
    requires 0 <= n <= MaxPayload
  {
    n / 256
  }

  /** ByteBuffer.getShort on two bytes in little-endian order: a signed 16-bit number. */
  function GetShortLE(lo: Byte, hi: Byte): int {
    var v := lo + 256 * hi;
    if v < 0x8000 then v else v - 0x1_0000
  }

  /**
   * The two length bytes written for n read back as n, and they are the
   * only pair of bytes that does.
   */
  lemma LengthRoundTrip(n: int, lo: Byte, hi: Byte)
    requires 0 <= n <= MaxPayload
    ensures GetShortLE(LowByte(n), HighByte(n)) == n
    ensures GetShortLE(lo, hi) == n <==> lo == LowByte(n) && hi == HighByte(n)
  {
    if GetShortLE(lo, hi) == n {
      assert lo + 256 * hi == n;
      assert n / 256 == hi && n % 256 == lo;
    }
  }

  function Flag(live: bool): Byte {
    if live then 1 else 0
  }

  /** Every payload length fits the 16-bit length field. */
  predicate Short(rs: seq<Record>) {
    forall i :: 0 <= i < |rs| ==> |rs[i].payload| <= MaxPayload
  }

  /** One record: flag, low length byte, high length byte, payload. */
  function Encode(r: Record): (e: seq<Byte>)
    requires |r.payload| <= MaxPayload
    ensures |e| == |r.payload| + 3
  {
    [Flag(r.live), LowByte(|r.payload|), HighByte(|r.payload|)] + r.payload
  }

  /** The records laid out one after another from position 0. */
  function Layout(rs: seq<Record>): seq<Byte>
    requires Short(rs)
    decreases |rs|
  {
    if rs == [] then [] else Layout(rs[..|rs| - 1]) + Encode(rs[|rs| - 1])
  }

  /** Where record n starts: the size of the records before it. */
  function Start(rs: seq<Record>, n: nat): nat
    requires Short(rs) && n <= |rs|
  {
    |Layout(rs[..n])|
  }

  /** The layout of a prefix of the records is a prefix of the layout. */
  lemma {:induction false} LayoutPrefix(rs: seq<Record>, n: nat)
    requires Short(rs) && n <= |rs|
    ensures Layout(rs[..n]) <= Layout(rs)
    decreases |rs|
  {
    if n < |rs| {
      var init := rs[..|rs| - 1];
      assert init[..n] == rs[..n];
      LayoutPrefix(init, n);
    } else {
      assert rs[..n] == rs;
    }
  }

  /**
   * Record n sits at Start(rs, n): its flag, its two length bytes, then
   * its payload, and the next record starts right after.
   */
  lemma RecordAt(rs: seq<Record>, n: nat)
    requires Short(rs) && n < |rs|
    ensures Start(rs, n) + 3 + |rs[n].payload| == Start(rs, n + 1) <= |Layout(rs)|
    ensures Layout(rs)[Start(rs, n)..Start(rs, n + 1)] == Encode(rs[n])
  {
    var p := rs[..n + 1];
    assert p[..|p| - 1] == rs[..n] && p[|p| - 1] == rs[n];
    LayoutPrefix(rs, n + 1);
  }

  /** Decoding record n where it starts gives back its flag, its length and its payload. */
  lemma DecodeAt(rs: seq<Record>, n: nat)
    requires Short(rs) && n < |rs|
    ensures var m, i, len := Layout(rs), Start(rs, n), |rs[n].payload|;
      i + 3 + len == Start(rs, n + 1) <= |m| &&
      (m[i] != 0 <==> rs[n].live) &&
      GetShortLE(m[i + 1], m[i + 2]) == len &&
      m[i + 3..i + 3 + len] == rs[n].payload
  {
    RecordAt(rs, n);
    var m, i, e := Layout(rs), Start(rs, n), Encode(rs[n]);
    assert i + |e| == Start(rs, n + 1);
    assert m[i..i + |e|] == e;
    Within(m, i, e);
    EncodeParts(rs[n]);
  }

  /** An encoded record read back: its flag, its length and its payload. */
  lemma EncodeParts(r: Record)
    requires |r.payload| <= MaxPayload
    ensures var e := Encode(r);
      (e[0] != 0 <==> r.live) && GetShortLE(e[1], e[2]) == |r.payload| && e[3..] == r.payload
  {
    LengthRoundTrip(|r.payload|, 0, 0);
  }

  /** A slice of m that equals e: m's bytes from a on are e's. */
  lemma Within(m: seq<Byte>, a: nat, e: seq<Byte>)
    requires 3 <= |e| && a + |e| <= |m| && m[a..a + |e|] == e
    ensures m[a] == e[0] && m[a + 1] == e[1] && m[a + 2] == e[2] && m[a + 3..a + |e|] == e[3..]
  {
    assert m[a + 3..a + |e|] == m[a..a + |e|][3..];
  }

  // ---------------------------------------------------------------
  // Live records
  // ---------------------------------------------------------------

  /** The live records, in storage order. */
  function LiveRecords(rs: seq<Record>): (r: seq<Record>)
    ensures |r| <= |rs|
    ensures forall i :: 0 <= i < |r| ==> r[i].live
    decreases |rs|
  {
    if rs == [] then []
    else LiveRecords(rs[..|rs| - 1]) + (if rs[|rs| - 1].live then [rs[|rs| - 1]] else [])
  }

  /** What toString lists: the payloads of the live records, in storage order. */
  function LivePayloads(rs: seq<Record>): (r: seq<seq<Byte>>)
    ensures |r| == |LiveRecords(rs)|
    ensures forall i :: 0 <= i < |r| ==> r[i] == LiveRecords(rs)[i].payload
    decreases |rs|
  {
    if rs == [] then []
    else LivePayloads(rs[..|rs| - 1]) + (if rs[|rs| - 1].live then [rs[|rs| - 1].payload] else [])
  }

  /** Keeping only live records keeps the lengths short and never makes the layout longer. */
  lemma {:induction false} LiveRecordsShort(rs: seq<Record>)
    requires Short(rs)
    ensures Short(LiveRecords(rs)) && |Layout(LiveRecords(rs))| <= |Layout(rs)|
    decreases |rs|
  {
    if rs != [] {
      var init, last := rs[..|rs| - 1], rs[|rs| - 1];
      LiveRecordsShort(init);
      if last.live {
        var l := LiveRecords(init) + [last];
        assert l[..|l| - 1] == LiveRecords(init) && l[|l| - 1] == last;
      } else {
        assert LiveRecords(rs) == LiveRecords(init);
      }
    }
  }

  /** Live records stay live and in order; deleted ones are gone. */
  lemma {:induction false} LiveRecordsIdempotent(rs: seq<Record>)
    ensures LiveRecords(LiveRecords(rs)) == LiveRecords(rs)
    ensures LivePayloads(LiveRecords(rs)) == LivePayloads(rs)
    decreases |rs|
  {
    if rs != [] {
      var init, last := rs[..|rs| - 1], rs[|rs| - 1];
      LiveRecordsIdempotent(init);
      if last.live {
        var l := LiveRecords(init) + [last];
        assert l[..|l| - 1] == LiveRecords(init) && l[|l| - 1] == last;
      } else {
        assert LiveRecords(rs) == LiveRecords(init);
      }
    }
  }

  // ---------------------------------------------------------------
  // Appending and deleting a record
  // ---------------------------------------------------------------

  /** A new record goes at the end of the layout, and its payload at the end of the listing. */
  lemma Append(rs: seq<Record>, r: Record)
    requires Short(rs) && |r.payload| <= MaxPayload
    ensures Short(rs + [r])
    ensures Layout(rs + [r]) == Layout(rs) + Encode(r)
    ensures LiveRecords(rs + [r]) == LiveRecords(rs) + (if r.live then [r] else [])
    ensures LivePayloads(rs + [r]) == LivePayloads(rs) + (if r.live then [r.payload] else [])
  {
    var s := rs + [r];
    assert s[..|s| - 1] == rs && s[|s| - 1] == r;
  }

  /** Record n marked deleted. */
  function MarkDeleted(rs: seq<Record>, n: nat): seq<Record>
    requires n < |rs|
  {
    rs[n := Record(false, rs[n].payload)]
  }

  /**
   * Deleting record n changes exactly one byte of the layout, its flag,
   * to zero.
   */
  lemma {:induction false} DeleteLayout(rs: seq<Record>, n: nat)
    requires Short(rs) && n < |rs|
    ensures Short(MarkDeleted(rs, n))
    ensures Start(MarkDeleted(rs, n), n) == Start(rs, n) < |Layout(rs)|
    ensures Layout(MarkDeleted(rs, n)) == Layout(rs)[Start(rs, n) := 0]
    decreases |rs|
  {
    if n == |rs| - 1 {
      DeleteLast(rs);
    } else {
      var d, init, last := MarkDeleted(rs, n), rs[..|rs| - 1], rs[|rs| - 1];
      DeleteBefore(rs, n);
      DeleteLayout(init, n);
      assert Layout(d) == Layout(MarkDeleted(init, n)) + Encode(last);
      assert Layout(rs) == Layout(init) + Encode(last);
      UpdateConcat(Layout(init), Encode(last), Start(rs, n), 0);
    }
  }

  /** Deleting a record other than the last: the last record stays, the ones before it are deleted alike. */
  lemma DeleteBefore(rs: seq<Record>, n: nat)
    requires Short(rs) && n < |rs| - 1
    ensures var d := MarkDeleted(rs, n);
      Short(d) && d[..|d| - 1] == MarkDeleted(rs[..|rs| - 1], n) && d[|d| - 1] == rs[|rs| - 1] &&
      d[..n] == rs[..n] && rs[..|rs| - 1][..n] == rs[..n]
  {
  }

  lemma DeleteLast(rs: seq<Record>)
    requires Short(rs) && rs != []
    ensures var n := |rs| - 1;
      Short(MarkDeleted(rs, n)) && Start(MarkDeleted(rs, n), n) == Start(rs, n) < |Layout(rs)| &&
      Layout(MarkDeleted(rs, n)) == Layout(rs)[Start(rs, n) := 0]
  {
    var n := |rs| - 1;
    var d := MarkDeleted(rs, n);
    assert d[..n] == rs[..n] && d[..|d| - 1] == rs[..n];
    assert Encode(d[n]) == Encode(rs[n])[0 := 0];
    UpdateConcat2(Layout(rs[..n]), Encode(rs[n]), 0);
  }

  lemma UpdateConcat(a: seq<Byte>, b: seq<Byte>, i: nat, v: Byte)
    requires i < |a|
    ensures (a + b)[i := v] == a[i := v] + b
  {
  }

  lemma UpdateConcat2(a: seq<Byte>, b: seq<Byte>, i: nat)
    requires i < |b|
    ensures (a + b)[|a| + i := 0] == a + b[i := 0]
  {
  }

  /** Deleting twice is deleting once. */
  lemma DeleteIdempotent(rs: seq<Record>, n: nat)
    requires n < |rs|
    ensures MarkDeleted(MarkDeleted(rs, n), n) == MarkDeleted(rs, n)
    ensures !MarkDeleted(rs, n)[n].live
  {
  }

  /**
   * Deleting a live record drops its payload from the listing, keeping the
   * others in order.
   */
  lemma {:induction false} DeletePayloads(rs: seq<Record>, n: nat)
    requires n < |rs|
    ensures LivePayloads(MarkDeleted(rs, n)) ==
            LivePayloads(rs[..n]) + LivePayloads(rs[n + 1..])
    ensures LivePayloads(rs) ==
            LivePayloads(rs[..n]) + (if rs[n].live then [rs[n].payload] else []) + LivePayloads(rs[n + 1..])
  {
    var d := MarkDeleted(rs, n);
    assert d == rs[..n] + [d[n]] + rs[n + 1..];
    assert rs == rs[..n] + [rs[n]] + rs[n + 1..];
    PayloadsAround(rs[..n], d[n], rs[n + 1..]);
    PayloadsAround(rs[..n], rs[n], rs[n + 1..]);
  }

  /** The listing of xs, then x, then ys. */
  lemma PayloadsAround(xs: seq<Record>, x: Record, ys: seq<Record>)
    ensures LivePayloads(xs + [x] + ys) == LivePayloads(xs) + (if x.live then [x.payload] else []) + LivePayloads(ys)
  {
    PayloadsAppend(xs + [x], ys);
    assert (xs + [x])[..|xs + [x]| - 1] == xs;
  }

  lemma {:induction false} PayloadsAppend(xs: seq<Record>, ys: seq<Record>)
    ensures LivePayloads(xs + ys) == LivePayloads(xs) + LivePayloads(ys)
    decreases |ys|
  {
    if ys == [] {
      assert xs + ys == xs;
    } else {
      var s, init, last := xs + ys, ys[..|ys| - 1], ys[|ys| - 1];
      assert s[..|s| - 1] == xs + init && s[|s| - 1] == last;
      PayloadsAppend(xs, init);
      assert LivePayloads(s) == LivePayloads(xs + init) + (if last.live then [last.payload] else []);
      assert LivePayloads(ys) == LivePayloads(init) + (if last.live then [last.payload] else []);
    }
  }
}
