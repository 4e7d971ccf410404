/**
 * The byte arena of src/DynamicByteArray.java: records packed into one
 * byte array, a write cursor, and the artist and song tables whose
 * handles point into the array. The ghost `records` is the list of
 * records the array holds; the bytes before the cursor are their layout
 * and every byte after it is zero.
 */
module DynamicByteArrays {
  import opened Wrappers
  import opened Handles
  import opened HashTables
  import opened ByteLayouts

  /** The contents of the artist table and of the song table. */
  datatype Tables = Tables(artist: seq<Slot>, song: seq<Slot>)

  /**
   * ts' is ts with exactly one handle that reads `payload` replaced by
   * `moved`: a song handle that sat at oldStart, or else an artist handle.
   */
  ghost predicate MovedOne(ts: Tables, ts': Tables, payload: seq<Byte>, oldStart: int, moved: Handle) {
    (ts'.artist == ts.artist &&
     exists s :: 0 <= s < |ts.song| && ts.song[s].Full? && GetStringAt(ts.song[s].handle) == Some(payload) &&
                 ts.song[s].handle.startingLocation == oldStart && ts'.song == ts.song[s := Full(moved)]) ||
    (ts'.song == ts.song &&
     exists a :: 0 <= a < |ts.artist| && ts.artist[a].Full? && GetStringAt(ts.artist[a].handle) == Some(payload) &&
                 ts'.artist == ts.artist[a := Full(moved)])
  }

  /**
   * The handle update of expandMemory for one live record: the song
   * table's handle with this payload when it points at the record's old
   * payload position, otherwise the artist table's handle with this
   * payload; None where the source dereferences a null artist handle.
   */
  function Relocate(ts: Tables, payload: seq<Byte>, oldStart: int, moved: Handle): (r: Option<Tables>)
    ensures r.Some? ==> MovedOne(ts, r.value, payload, oldStart, moved)
    ensures r.None? ==> Scan(ts.artist, Content(payload)) == -1
  {
    var s := Scan(ts.song, Content(payload));
    if s != -1 && ts.song[s].handle.startingLocation == oldStart then
      var r := ts.(song := ts.song[s := Full(moved)]);
      assert ts.song[s].Full? && r.song == ts.song[s := Full(moved)];
      Some(r)
    else
      var a := Scan(ts.artist, Content(payload));
      if a == -1 then None
      else
        var r := ts.(artist := ts.artist[a := Full(moved)]);
        assert ts.artist[a].Full? && r.artist == ts.artist[a := Full(moved)];
        Some(r)
  }

  /** The live records laid out one after another: what expandMemory copies. */
  function Compacted(rs: seq<Record>): (c: seq<Byte>)
    requires Short(rs)
    ensures |c| <= |Layout(rs)|
  {
    LiveRecordsShort(rs);
    Layout(LiveRecords(rs))
  }

  /** The new buffer of newLen bytes once the live records among the first n are copied into it. */
  function Copied(rs: seq<Record>, n: nat, newLen: nat): (m: seq<Byte>)
    requires Short(rs) && n <= |rs|
  {
    var l := Compacted(rs[..n]);
    l + Zeros(if newLen >= |l| then newLen - |l| else 0)
  }

  /**
   * The handle expandMemory gives live record n: it reads the new buffer
   * once record n is copied, from where the record's payload landed.
   */
  function Moved(rs: seq<Record>, n: nat, newLen: nat): Handle
    requires Short(rs) && n < |rs|
  {
    Handle(Copied(rs, n + 1, newLen), |Compacted(rs[..n])| + 3, |rs[n].payload|)
  }

  /**
   * The handle updates of expandMemory for records n.. of rs, in storage
   * order, copying into a buffer of newLen bytes.
   */
  function RelocateFrom(rs: seq<Record>, n: nat, ts: Tables, newLen: nat): (r: Option<Tables>)
    requires Short(rs) && n <= |rs|
    ensures r.Some? ==> |r.value.artist| == |ts.artist| && |r.value.song| == |ts.song|
    decreases |rs| - n
  {
    if n == |rs| then Some(ts)
    else if !rs[n].live then RelocateFrom(rs, n + 1, ts, newLen)
    else
      match Relocate(ts, rs[n].payload, Start(rs, n) + 3, Moved(rs, n, newLen))
      case None => None
      case Some(ts') => RelocateFrom(rs, n + 1, ts', newLen)
  }

  /** The live records of a prefix are a prefix of the live records. */
  lemma {:induction false} LiveRecordsPrefix(rs: seq<Record>, m: nat)
    requires m <= |rs|
    ensures LiveRecords(rs[..m]) <= LiveRecords(rs)
    decreases |rs|
  {
    if m < |rs| {
      var init := rs[..|rs| - 1];
      assert init[..m] == rs[..m];
      LiveRecordsPrefix(init, m);
    } else {
      assert rs[..m] == rs;
    }
  }

  /**
   * The handle of live record n after the move: it starts where that
   * record's payload starts among the live records, and it reads the
   * record's payload.
   */
  lemma MovedReads(rs: seq<Record>, n: nat, newLen: nat)
    requires Short(rs) && n < |rs| && rs[n].live
    ensures Short(LiveRecords(rs))
    ensures var k := |LiveRecords(rs[..n])|;
      k < |LiveRecords(rs)| && LiveRecords(rs)[k] == rs[n] &&
      Moved(rs, n, newLen).startingLocation == Start(LiveRecords(rs), k) + 3 &&
      GetStringAt(Moved(rs, n, newLen)) == Some(rs[n].payload)
  {
    LiveIndex(rs, n);
    MovedPayload(rs, n, newLen);
  }

  /** A live record's place among the live records: after the live records before it. */
  lemma LiveIndex(rs: seq<Record>, n: nat)
    requires Short(rs) && n < |rs| && rs[n].live
    ensures Short(LiveRecords(rs))
    ensures var k := |LiveRecords(rs[..n])|;
      k < |LiveRecords(rs)| && LiveRecords(rs)[k] == rs[n] &&
      Start(LiveRecords(rs), k) == |Compacted(rs[..n])|
  {
    LiveRecordsShort(rs);
    var lr, before := LiveRecords(rs), LiveRecords(rs[..n]);
    LivePrefixStep(rs, n);
    var k := |before|;
    assert lr[..k] == before;
    assert Start(lr, k) == |Layout(before)|;
  }

  lemma LivePrefixStep(rs: seq<Record>, n: nat)
    requires n < |rs| && rs[n].live
    ensures var lr, before := LiveRecords(rs), LiveRecords(rs[..n]);
      |before| < |lr| && lr[|before|] == rs[n] && lr[..|before|] == before
  {
    var lr, before := LiveRecords(rs), LiveRecords(rs[..n]);
    var k := |before|;
    var upto := LiveRecords(rs[..n + 1]);
    LiveRecordsSnoc(rs, n);
    LiveRecordsPrefix(rs, n + 1);
    assert upto == lr[..k + 1];
    assert lr[k] == upto[k];
    assert lr[..k] == upto[..k];
  }

  /** The live records of the first n + 1 records: those of the first n, then record n if it is live. */
  lemma LiveRecordsSnoc(rs: seq<Record>, n: nat)
    requires n < |rs|
    ensures LiveRecords(rs[..n + 1]) == LiveRecords(rs[..n]) + if rs[n].live then [rs[n]] else []
  {
    var p := rs[..n + 1];
    assert p[..|p| - 1] == rs[..n] && p[|p| - 1] == rs[n];
  }

  /** The moved handle reads the record's payload from the new buffer. */
  lemma MovedPayload(rs: seq<Record>, n: nat, newLen: nat)
    requires Short(rs) && n < |rs| && rs[n].live
    ensures GetStringAt(Moved(rs, n, newLen)) == Some(rs[n].payload)
  {
    var c, e, len := Compacted(rs[..n]), Encode(rs[n]), |rs[n].payload|;
    var l := Compacted(rs[..n + 1]);
    CompactedLive(rs, n);
    var m := Copied(rs, n + 1, newLen);
    assert m[..|l|] == l;
    assert m[|c| + 3..|c| + 3 + len] == e[3..] == rs[n].payload;
    GetStringAtInRange(Moved(rs, n, newLen));
  }

  /** The slot holds a handle expandMemory gave to a live record from n on. */
  ghost predicate Placed(rs: seq<Record>, n: nat, x: Slot, newLen: nat)
    requires Short(rs)
  {
    exists m :: n <= m < |rs| && rs[m].live && x == Full(Moved(rs, m, newLen))
  }

  /**
   * s' is s with some handles moved: each slot is unchanged, or held a
   * handle and now holds a moved handle that reads the same payload.
   */
  ghost predicate RelocatedSlots(rs: seq<Record>, n: nat, s: seq<Slot>, s': seq<Slot>, newLen: nat)
    requires Short(rs)
  {
    |s'| == |s| &&
    forall i :: 0 <= i < |s| ==>
      s'[i] == s[i] ||
      (s[i].Full? && Placed(rs, n, s'[i], newLen) && GetStringAt(s'[i].handle) == GetStringAt(s[i].handle))
  }

  /**
   * The relocation of expandMemory only rewrites slots that held a handle,
   * and each such slot ends up holding the moved handle of a live record,
   * which reads the payload the old handle read.
   */
  lemma {:induction false} RelocateFromSpec(rs: seq<Record>, n: nat, ts: Tables, newLen: nat)
    requires Short(rs) && n <= |rs| && RelocateFrom(rs, n, ts, newLen).Some?
    ensures var r := RelocateFrom(rs, n, ts, newLen).value;
      RelocatedSlots(rs, n, ts.artist, r.artist, newLen) && RelocatedSlots(rs, n, ts.song, r.song, newLen)
    decreases |rs| - n
  {
    if n < |rs| {
      if !rs[n].live {
        RelocateFromSpec(rs, n + 1, ts, newLen);
        Widen(rs, n, ts.artist, RelocateFrom(rs, n, ts, newLen).value.artist, newLen);
        Widen(rs, n, ts.song, RelocateFrom(rs, n, ts, newLen).value.song, newLen);
      } else {
        var moved := Moved(rs, n, newLen);
        MovedReads(rs, n, newLen);
        var ts' := Relocate(ts, rs[n].payload, Start(rs, n) + 3, moved).value;
        RelocateFromSpec(rs, n + 1, ts', newLen);
        var r := RelocateFrom(rs, n + 1, ts', newLen).value;
        assert Placed(rs, n, Full(moved), newLen);
        OneThenMany(rs, n, ts.artist, ts'.artist, r.artist, moved, newLen);
        OneThenMany(rs, n, ts.song, ts'.song, r.song, moved, newLen);
      }
    }
  }

  /** Slots relocated from record n + 1 on are relocated from record n on. */
  lemma Widen(rs: seq<Record>, n: nat, s: seq<Slot>, s': seq<Slot>, newLen: nat)
    requires Short(rs) && RelocatedSlots(rs, n + 1, s, s', newLen)
    ensures RelocatedSlots(rs, n, s, s', newLen)
  {
    forall i | 0 <= i < |s| && s'[i] != s[i]
      ensures Placed(rs, n, s'[i], newLen)
    {
      var m :| n + 1 <= m < |rs| && rs[m].live && s'[i] == Full(Moved(rs, m, newLen));
    }
  }

  /** One slot moved to record n's handle, then more slots moved from record n + 1 on. */
  lemma OneThenMany(rs: seq<Record>, n: nat, s: seq<Slot>, s1: seq<Slot>, s2: seq<Slot>, moved: Handle, newLen: nat)
    requires Short(rs) && n < |rs| && rs[n].live && moved == Moved(rs, n, newLen)
    requires s1 == s || exists j :: 0 <= j < |s| && s[j].Full? && GetStringAt(s[j].handle) == GetStringAt(moved) && s1 == s[j := Full(moved)]
    requires RelocatedSlots(rs, n + 1, s1, s2, newLen)
    ensures RelocatedSlots(rs, n, s, s2, newLen)
  {
    assert Placed(rs, n, Full(moved), newLen);
    Widen(rs, n, s1, s2, newLen);
  }

  // ---------------------------------------------------------------
  // Where the handles point
  // ---------------------------------------------------------------

  /** h starts at the payload of one of the records and reads that payload. */
  ghost predicate Points(rs: seq<Record>, h: Handle)
    requires Short(rs)
  {
    exists n :: 0 <= n < |rs| && Start(rs, n) + 3 == h.startingLocation && GetStringAt(h) == Some(rs[n].payload)
  }

  /** Every handle among the slots points at a record's payload and reads it. */
  ghost predicate AllPoint(rs: seq<Record>, s: seq<Slot>)
    requires Short(rs)
  {
    forall h :: h in Live(s) ==> Points(rs, h)
  }

  /**
   * A slot after expandMemory: unchanged, or its handle was replaced by one
   * that reads the same payload from where a record of rs starts it.
   */
  ghost predicate SlotMoved(x: Slot, y: Slot, rs: seq<Record>)
    requires Short(rs)
  {
    y == x || (x.Full? && y.Full? && GetStringAt(y.handle) == GetStringAt(x.handle) && Points(rs, y.handle))
  }

  /** Slot by slot, the tables ts' are ts after expandMemory's updates, rs being the records kept. */
  ghost predicate Moves(ts: Tables, ts': Tables, rs: seq<Record>)
    requires Short(rs)
  {
    |ts'.artist| == |ts.artist| && |ts'.song| == |ts.song| &&
    (forall i :: 0 <= i < |ts.artist| ==> SlotMoved(ts.artist[i], ts'.artist[i], rs)) &&
    (forall i :: 0 <= i < |ts.song| ==> SlotMoved(ts.song[i], ts'.song[i], rs))
  }

  /** Every slot of ts that held a handle is rewritten in r. */
  predicate Reached(ts: Tables, r: Tables) {
    (forall i :: 0 <= i < |ts.artist| && i < |r.artist| && ts.artist[i].Full? ==> r.artist[i] != ts.artist[i]) &&
    (forall i :: 0 <= i < |ts.song| && i < |r.song| && ts.song[i].Full? ==> r.song[i] != ts.song[i])
  }

  /**
   * After expandMemory's relocation each slot is unchanged, or holds a
   * handle that reads what the slot's old handle read, from where that
   * payload starts among the live records.
   */
  lemma RelocationPoints(rs: seq<Record>, ts: Tables, newLen: nat)
    requires Short(rs) && RelocateFrom(rs, 0, ts, newLen).Some?
    ensures Short(LiveRecords(rs)) && Moves(ts, RelocateFrom(rs, 0, ts, newLen).value, LiveRecords(rs))
  {
    var r := RelocateFrom(rs, 0, ts, newLen).value;
    RelocateFromSpec(rs, 0, ts, newLen);
    SlotsPoint(rs, ts.artist, r.artist, newLen);
    SlotsPoint(rs, ts.song, r.song, newLen);
  }

  lemma SlotsPoint(rs: seq<Record>, s: seq<Slot>, s': seq<Slot>, newLen: nat)
    requires Short(rs) && RelocatedSlots(rs, 0, s, s', newLen)
    ensures Short(LiveRecords(rs)) && forall i :: 0 <= i < |s| ==> SlotMoved(s[i], s'[i], LiveRecords(rs))
  {
    LiveRecordsShort(rs);
    forall i | 0 <= i < |s| && s'[i] != s[i]
      ensures Points(LiveRecords(rs), s'[i].handle)
    {
      var m :| 0 <= m < |rs| && rs[m].live && s'[i] == Full(Moved(rs, m, newLen));
      MovedPoints(rs, m, newLen);
    }
  }

  /** The moved handle of a live record points at its payload among the live records. */
  lemma MovedPoints(rs: seq<Record>, m: nat, newLen: nat)
    requires Short(rs) && m < |rs| && rs[m].live
    ensures Short(LiveRecords(rs)) && Points(LiveRecords(rs), Moved(rs, m, newLen))
  {
    MovedReads(rs, m, newLen);
    var lr, k := LiveRecords(rs), |LiveRecords(rs[..m])|;
    assert 0 <= k < |lr| && Start(lr, k) + 3 == Moved(rs, m, newLen).startingLocation &&
      GetStringAt(Moved(rs, m, newLen)) == Some(lr[k].payload);
  }

  /**
   * When the relocation rewrites every slot that held a handle, every
   * handle of the new tables starts at a payload of the live records and
   * reads it.
   */
  lemma ReachedPoints(rs: seq<Record>, ts: Tables, newLen: nat)
    requires Short(rs) && RelocateFrom(rs, 0, ts, newLen).Some? && Reached(ts, RelocateFrom(rs, 0, ts, newLen).value)
    ensures Short(LiveRecords(rs))
    ensures var r := RelocateFrom(rs, 0, ts, newLen).value;
      AllPoint(LiveRecords(rs), r.artist) && AllPoint(LiveRecords(rs), r.song)
  {
    var r := RelocateFrom(rs, 0, ts, newLen).value;
    RelocationPoints(rs, ts, newLen);
    forall h | h in Live(r.artist)
      ensures Points(LiveRecords(rs), h)
    {
      LiveMember(r.artist, h);
    }
    forall h | h in Live(r.song)
      ensures Points(LiveRecords(rs), h)
    {
      LiveMember(r.song, h);
    }
  }

  /** Records keep their starts when a record is appended. */
  lemma PointsAppend(rs: seq<Record>, r: Record, h: Handle)
    requires Short(rs) && |r.payload| <= MaxPayload && Points(rs, h)
    ensures Short(rs + [r]) && Points(rs + [r], h)
  {
    var n :| 0 <= n < |rs| && Start(rs, n) + 3 == h.startingLocation && GetStringAt(h) == Some(rs[n].payload);
    assert (rs + [r])[..n] == rs[..n];
    assert Start(rs + [r], n) == Start(rs, n) && (rs + [r])[n] == rs[n];
    assert Short(rs + [r]) by {
      assert forall i :: 0 <= i < |rs + [r]| ==> i == |rs| || (rs + [r])[i] == rs[i];
    }
  }

  /** A handle to the payload of an appended record points into the longer list. */
  lemma PointsLast(rs: seq<Record>, r: Record, h: Handle)
    requires Short(rs) && |r.payload| <= MaxPayload
    requires h.startingLocation == |Layout(rs)| + 3 && GetStringAt(h) == Some(r.payload)
    ensures Short(rs + [r]) && Points(rs + [r], h)
  {
    assert (rs + [r])[..|rs|] == rs;
    assert Start(rs + [r], |rs|) + 3 == h.startingLocation && (rs + [r])[|rs|] == r;
    assert Short(rs + [r]) by {
      assert forall i :: 0 <= i < |rs + [r]| ==> i == |rs| || (rs + [r])[i] == rs[i];
    }
  }

  /** Marking a record deleted moves no record. */
  lemma StartDelete(rs: seq<Record>, j: nat, n: nat)
    requires Short(rs) && j < |rs| && n <= |rs|
    ensures Short(MarkDeleted(rs, j)) && Start(MarkDeleted(rs, j), n) == Start(rs, n)
  {
    var d := MarkDeleted(rs, j);
    assert Short(d) by {
      assert forall i :: 0 <= i < |d| ==> d[i].payload == rs[i].payload;
    }
    if n <= j {
      assert d[..n] == rs[..n];
    } else {
      assert d[..n] == MarkDeleted(rs[..n], j);
      DeleteLayout(rs[..n], j);
    }
  }

  /**
   * Writing record r after rs and putting a handle to it into the artist
   * table (isArtist) or the song table, which gains it or stays as it was,
   * keeps every handle of both tables pointing.
   */
  lemma PlacedPoints(rs: seq<Record>, r: Record, h: Handle, ts: Tables, ts': Tables, isArtist: bool)
    requires Short(rs) && |r.payload| <= MaxPayload && AllPoint(rs, ts.artist) && AllPoint(rs, ts.song)
    requires h.startingLocation == |Layout(rs)| + 3 && GetStringAt(h) == Some(r.payload)
    requires if isArtist then ts'.song == ts.song else ts'.artist == ts.artist
    requires var live, prior := Live(if isArtist then ts'.artist else ts'.song), Live(if isArtist then ts.artist else ts.song);
      live == prior || live == prior + multiset{h}
    ensures Short(rs + [r]) && AllPoint(rs + [r], ts'.artist) && AllPoint(rs + [r], ts'.song)
  {
    PointsLast(rs, r, h);
    AllPointAppend(rs, r, ts.artist, ts'.artist, h);
    AllPointAppend(rs, r, ts.song, ts'.song, h);
  }

  /**
   * Marking record j deleted and deleting h from the artist table
   * (isArtist) or the song table keeps every handle of both tables
   * pointing.
   */
  lemma DeletedPoints(rs: seq<Record>, j: nat, h: Handle, a: seq<Slot>, s: seq<Slot>, isArtist: bool)
    requires Short(rs) && j < |rs| && AllPoint(rs, a) && AllPoint(rs, s) && GetStringAt(h).Some?
    ensures Short(MarkDeleted(rs, j))
    ensures AllPoint(MarkDeleted(rs, j), if isArtist then Deleted(a, h) else a)
    ensures AllPoint(MarkDeleted(rs, j), if isArtist then s else Deleted(s, h))
  {
    if isArtist {
      DeletedLive(a, h);
      AllPointDelete(rs, j, a, Deleted(a, h));
      AllPointDelete(rs, j, s, s);
    } else {
      DeletedLive(s, h);
      AllPointDelete(rs, j, a, a);
      AllPointDelete(rs, j, s, Deleted(s, h));
    }
  }

  /** Deleting a record and taking handles out keeps every remaining handle pointing. */
  lemma AllPointDelete(rs: seq<Record>, j: nat, s: seq<Slot>, s': seq<Slot>)
    requires Short(rs) && j < |rs| && AllPoint(rs, s) && Live(s') <= Live(s)
    ensures Short(MarkDeleted(rs, j)) && AllPoint(MarkDeleted(rs, j), s')
  {
    StartDelete(rs, j, 0);
    forall x | x in Live(s')
      ensures Points(MarkDeleted(rs, j), x)
    {
      PointsDelete(rs, j, x);
    }
  }

  /** Appending a record and adding a handle to it keeps every handle pointing. */
  lemma AllPointAppend(rs: seq<Record>, r: Record, s: seq<Slot>, s': seq<Slot>, h: Handle)
    requires Short(rs) && |r.payload| <= MaxPayload && AllPoint(rs, s)
    requires Short(rs + [r]) && Points(rs + [r], h)
    requires Live(s') == Live(s) || Live(s') == Live(s) + multiset{h}
    ensures AllPoint(rs + [r], s')
  {
    forall x | x in Live(s')
      ensures Points(rs + [r], x)
    {
      if x != h {
        PointsAppend(rs, r, x);
      }
    }
  }

  lemma PointsDelete(rs: seq<Record>, j: nat, h: Handle)
    requires Short(rs) && j < |rs| && Points(rs, h)
    ensures Short(MarkDeleted(rs, j)) && Points(MarkDeleted(rs, j), h)
  {
    var n :| 0 <= n < |rs| && Start(rs, n) + 3 == h.startingLocation && GetStringAt(h) == Some(rs[n].payload);
    StartDelete(rs, j, n);
  }

  /** Records start further on the later they come. */
  lemma StartIncreasing(rs: seq<Record>, n: nat, m: nat)
    requires Short(rs) && n < m <= |rs|
    ensures Start(rs, n) + 3 <= Start(rs, m)
  {
    RecordAt(rs, n);
    assert rs[..m][..n + 1] == rs[..n + 1];
    LayoutPrefix(rs[..m], n + 1);
  }

  /** Reading record n where it starts in a buffer whose first `offset` bytes are the layout. */
  lemma DecodeIn(m: seq<Byte>, offset: nat, rs: seq<Record>, n: nat)
    requires Short(rs) && offset <= |m| && m[..offset] == Layout(rs) && n < |rs|
    ensures var i, len := Start(rs, n), |rs[n].payload|;
      i + 3 + len == Start(rs, n + 1) <= offset &&
      (m[i] != 0 <==> rs[n].live) &&
      GetShortLE(m[i + 1], m[i + 2]) == len &&
      CopyOfRange(m, i + 3, i + 3 + len) == Some(rs[n].payload)
  {
    DecodeAt(rs, n);
    var l, i, len := Layout(rs), Start(rs, n), |rs[n].payload|;
    PrefixBytes(m, offset, l, i, i + 3 + len);
    CopyInside(m, i + 3, i + 3 + len);
  }

  /** A buffer that starts with l holds l's bytes: three single bytes from a on, then the rest up to b. */
  lemma PrefixBytes(m: seq<Byte>, k: nat, l: seq<Byte>, a: nat, b: nat)
    requires k <= |m| && m[..k] == l && a + 3 <= b <= k
    ensures m[a] == l[a] && m[a + 1] == l[a + 1] && m[a + 2] == l[a + 2] && m[a + 3..b] == l[a + 3..b]
  {
    assert m[a + 3..b] == m[..k][a + 3..b];
  }

  /** copyOfRange inside the array copies exactly that range. */
  lemma CopyInside(m: seq<Byte>, a: nat, b: nat)
    requires a <= b <= |m|
    ensures CopyOfRange(m, a, b) == Some(m[a..b])
  {
  }

  /**
   * One step of the walk of toString from position i, where record n
   * starts (or past the last record, where every byte is zero): the step
   * lands where record n + 1 starts, and the listing grows by record n's
   * payload when it is live.
   */
  lemma {:induction false} WalkStep(m: seq<Byte>, offset: nat, rs: seq<Record>, n: nat, i: nat, list: seq<seq<Byte>>) returns (n': nat)
    requires Short(rs) && offset <= |m| && m[..offset] == Layout(rs)
    requires forall j :: offset <= j < |m| ==> m[j] == 0
    requires n <= |rs| && (n < |rs| ==> i == Start(rs, n)) && (n == |rs| ==> offset <= i) && i + 2 < |m|
    requires list == LivePayloads(rs[..n])
    ensures n' == if n < |rs| then n + 1 else n
    ensures var len := GetShortLE(m[i + 1], m[i + 2]);
      0 <= len && (m[i] != 0 ==> CopyOfRange(m, i + 3, i + 3 + len).Some?) &&
      (n' < |rs| ==> i + 3 + len == Start(rs, n')) && (n' == |rs| ==> offset <= i + 3 + len) &&
      (m[i] != 0 ==> LivePayloads(rs[..n']) == list + [CopyOfRange(m, i + 3, i + 3 + len).value]) &&
      (m[i] == 0 ==> LivePayloads(rs[..n']) == list)
  {
    n' := if n < |rs| then n + 1 else n;
    if n < |rs| {
      DecodeIn(m, offset, rs, n);
      var p := rs[..n + 1];
      assert p[..|p| - 1] == rs[..n] && p[|p| - 1] == rs[n];
    } else {
      assert m[i] == 0 && m[i + 1] == 0 && m[i + 2] == 0;
    }
  }

  /** The record index whose payload starts at q, if any. */
  ghost predicate IsPayloadStart(rs: seq<Record>, q: int)
    requires Short(rs)
  {
    exists n :: 0 <= n < |rs| && Start(rs, n) + 3 == q
  }

  ghost function RecordIndex(rs: seq<Record>, q: int): (n: nat)
    requires Short(rs) && IsPayloadStart(rs, q)
    ensures n < |rs| && Start(rs, n) + 3 == q && q + |rs[n].payload| <= |Layout(rs)|
  {
    var n :| 0 <= n < |rs| && Start(rs, n) + 3 == q;
    RecordAt(rs, n);
    n
  }

  /** Record n of the layout, read from a buffer that starts with the layout. */
  lemma EncodedIn(m: seq<Byte>, offset: nat, rs: seq<Record>, n: nat)
    requires Short(rs) && offset <= |m| && m[..offset] == Layout(rs) && n < |rs|
    ensures Start(rs, n) + 3 + |rs[n].payload| == Start(rs, n + 1) <= offset
    ensures m[Start(rs, n)..Start(rs, n + 1)] == Encode(rs[n])
  {
    RecordAt(rs, n);
    var a, b := Start(rs, n), Start(rs, n + 1);
    assert m[a..b] == m[..offset][a..b];
  }

  /** A live record extends the compacted layout by its encoding. */
  lemma CompactedLive(rs: seq<Record>, n: nat)
    requires Short(rs) && n < |rs| && rs[n].live
    ensures Compacted(rs[..n + 1]) == Compacted(rs[..n]) + Encode(rs[n])
    ensures |Compacted(rs[..n + 1])| <= Start(rs, n + 1)
  {
    assert rs[..n + 1] == rs[..n] + [rs[n]];
    Append(rs[..n], rs[n]);
    LiveRecordsShort(rs[..n]);
    Append(LiveRecords(rs[..n]), rs[n]);
  }

  /** The buffer expandMemory builds holds the live records laid out, and zeros after them. */
  lemma CopiedLaid(rs: seq<Record>, newLen: nat)
    requires Short(rs) && |Compacted(rs)| <= newLen
    ensures Short(LiveRecords(rs))
    ensures var c := Copied(rs, |rs|, newLen);
      |c| == newLen && c[..|Compacted(rs)|] == Layout(LiveRecords(rs)) &&
      forall j :: |Compacted(rs)| <= j < newLen ==> c[j] == 0
  {
    LiveRecordsShort(rs);
    assert rs[..|rs|] == rs;
  }

  /** Writing e right after c into a zeroed buffer of newLen bytes. */
  lemma ZeroFill(c: seq<Byte>, e: seq<Byte>, newLen: nat)
    requires |c| + |e| <= newLen
    ensures var z := c + Zeros(newLen - |c|);
      z[..|c|] + e + z[|c| + |e|..] == c + e + Zeros(newLen - |c| - |e|)
  {
    var z := c + Zeros(newLen - |c|);
    assert z[..|c|] == c;
    assert z[|c| + |e|..] == Zeros(newLen - |c| - |e|);
  }

  /**
   * One step of the copy of expandMemory: copying live record n from the
   * old buffer to the end of the copied records turns the new buffer
   * holding the first n records' live ones into the one holding the
   * first n + 1's.
   */
  lemma CopyStep(m: seq<Byte>, offset: nat, rs: seq<Record>, n: nat, newLen: nat)
    requires Short(rs) && offset <= |m| && m[..offset] == Layout(rs) && n < |rs| && rs[n].live
    requires offset <= newLen
    ensures var i, len, o := Start(rs, n), |rs[n].payload|, |Compacted(rs[..n])|;
      i + 3 + len <= offset && o + 3 + len <= newLen && o + 3 + len == |Compacted(rs[..n + 1])| &&
      Copied(rs, n, newLen)[..o] + m[i..i + 3 + len] + Copied(rs, n, newLen)[o + 3 + len..] == Copied(rs, n + 1, newLen)
  {
    EncodedIn(m, offset, rs, n);
    CompactedLive(rs, n);
    LayoutPrefix(rs, n + 1);
    ZeroFill(Compacted(rs[..n]), Encode(rs[n]), newLen);
  }

  /** A deleted record is not copied: the new buffer stays as it was. */
  lemma SkipStep(rs: seq<Record>, n: nat, newLen: nat)
    requires Short(rs) && n < |rs| && !rs[n].live
    ensures Compacted(rs[..n + 1]) == Compacted(rs[..n])
    ensures Copied(rs, n + 1, newLen) == Copied(rs, n, newLen)
  {
    assert rs[..n + 1] == rs[..n] + [rs[n]];
    Append(rs[..n], rs[n]);
    assert LiveRecords(rs[..n + 1]) == LiveRecords(rs[..n]);
  }

  /** Zeroing the flag of record n in a buffer that starts with the layout. */
  lemma DeleteIn(m: seq<Byte>, offset: nat, rs: seq<Record>, n: nat)
    requires Short(rs) && offset <= |m| && m[..offset] == Layout(rs) && n < |rs|
    requires forall j :: offset <= j < |m| ==> m[j] == 0
    ensures Start(rs, n) < offset && Short(MarkDeleted(rs, n))
    ensures m[Start(rs, n) := 0][..offset] == Layout(MarkDeleted(rs, n))
  {
    DeleteLayout(rs, n);
    UpdatePrefix(m, offset, Start(rs, n), 0);
  }

  /** Updating a byte inside a prefix updates the prefix. */
  lemma UpdatePrefix(m: seq<Byte>, k: nat, i: nat, v: Byte)
    requires i < k <= |m|
    ensures m[i := v][..k] == m[..k][i := v]
  {
  }

  /**
   * One pass of the loop of expandMemory from position i, where record n
   * starts (or past the last record, where every byte is zero): the pass
   * lands where record n + 1 starts; a nonzero flag means record n is live,
   * and copying its bytes to the end of the copied records gives the new
   * buffer for the first n + 1 records; a zero flag leaves it as it was.
   */
  lemma CopyIteration(m: seq<Byte>, end: nat, rs: seq<Record>, n: nat, i: nat, newLen: nat)
    requires Short(rs) && end <= |m| && m[..end] == Layout(rs) && end <= newLen
    requires forall j :: end <= j < |m| ==> m[j] == 0
    requires n <= |rs| && (n < |rs| ==> i == Start(rs, n)) && (n == |rs| ==> end <= i) && i + 2 < |m|
    ensures var len, n' := GetShortLE(m[i + 1], m[i + 2]), if n < |rs| then n + 1 else n;
      var o := |Compacted(rs[..n])|;
      0 <= len && (n' < |rs| ==> i + 3 + len == Start(rs, n')) && (n' == |rs| ==> end <= i + 3 + len) &&
      (m[i] != 0 ==>
         n < |rs| && rs[n].live && len == |rs[n].payload| &&
         CopyOfRange(m, i + 3, i + 3 + len) == Some(rs[n].payload) &&
         i + (len + 3) <= |m| && o + (len + 3) <= newLen && o + (len + 3) == |Compacted(rs[..n'])| &&
         Copied(rs, n, newLen)[..o] + m[i..i + (len + 3)] + Copied(rs, n, newLen)[o + (len + 3)..] == Copied(rs, n', newLen)) &&
      (m[i] == 0 ==> (n < |rs| ==> !rs[n].live) && Compacted(rs[..n']) == Compacted(rs[..n]) && Copied(rs, n', newLen) == Copied(rs, n, newLen))
  {
    if n < |rs| {
      DecodeIn(m, end, rs, n);
      if rs[n].live {
        CopyStep(m, end, rs, n, newLen);
      } else {
        SkipStep(rs, n, newLen);
      }
    } else {
      assert m[i] == 0 && m[i + 1] == 0 && m[i + 2] == 0;
    }
  }

  /** Writing a record at the cursor appends it to the layout and keeps the tail zero. */
  lemma WriteRecord(m0: seq<Byte>, m1: seq<Byte>, rs: seq<Record>, r: Record)
    requires Short(rs) && |r.payload| <= MaxPayload
    requires |Layout(rs)| + 3 + |r.payload| <= |m0| && m0[..|Layout(rs)|] == Layout(rs)
    requires forall j :: |Layout(rs)| <= j < |m0| ==> m0[j] == 0
    requires m1 == m0[..|Layout(rs)|] + Encode(r) + m0[|Layout(rs)| + 3 + |r.payload|..]
    ensures Short(rs + [r]) && |Layout(rs + [r])| == |Layout(rs)| + 3 + |r.payload|
    ensures m1[..|Layout(rs + [r])|] == Layout(rs + [r])
    ensures forall j :: |Layout(rs + [r])| <= j < |m1| ==> m1[j] == 0
  {
    Append(rs, r);
    var o := |Layout(rs)| + 3 + |r.payload|;
    forall j | o <= j < |m1|
      ensures m1[j] == 0
    {
      assert m1[j] == m0[j];
    }
  }

  /** System.arraycopy from src[from..from + count] into dst at position to. */
  method CopyBytes(src: array<Byte>, from: int, dst: array<Byte>, to: int, count: int)
    requires src != dst
    requires 0 <= from && 0 <= to && 0 <= count && from + count <= src.Length && to + count <= dst.Length
    modifies dst
    ensures dst[..] == old(dst[..])[..to] + old(src[..])[from..from + count] + old(dst[..])[to + count..]
  {
    var k := 0;
    while k < count
      invariant 0 <= k <= count
      invariant forall j :: 0 <= j < dst.Length ==>
        dst[j] == if to <= j < to + k then src[from + j - to] else old(dst[j])
    {
      dst[to + k] := src[from + k];
      k := k + 1;
    }
    assert dst[..] == old(dst[..])[..to] + old(src[..])[from..from + count] + old(dst[..])[to + count..] by {
      var r := old(dst[..])[..to] + old(src[..])[from..from + count] + old(dst[..])[to + count..];
      assert |r| == dst.Length;
      forall j | 0 <= j < dst.Length
        ensures dst[j] == r[j]
      {
        if j < to {
        } else if j < to + count {
          assert r[j] == old(src[..])[from..from + count][j - to];
        } else {
          assert r[j] == old(dst[..])[to + count..][j - to - count];
        }
      }
    }
  }

  /** The three header writes followed by the payload copy lay out one record. */
  lemma Spliced(m0: seq<Byte>, m1: seq<Byte>, m2: seq<Byte>, at: nat, name: seq<Byte>)
    requires at + |name| + 3 <= |m0| && |name| <= MaxPayload
    requires m1 == m0[at := 1][at + 1 := LowByte(|name|)][at + 2 := HighByte(|name|)]
    requires m2 == m1[..at + 3] + name + m1[at + 3 + |name|..]
    ensures m2 == m0[..at] + Encode(Record(true, name)) + m0[at + |name| + 3..]
  {
    assert m1[..at + 3] == m0[..at] + [1, LowByte(|name|), HighByte(|name|)];
    assert m1[at + 3 + |name|..] == m0[at + |name| + 3..];
  }

  /** The writes of insert: flag 1, the length in little-endian order, then the payload, from position at. */
  method WriteAt(memory: array<Byte>, at: int, name: seq<Byte>)
    requires 0 <= at && at + |name| + 3 <= memory.Length && |name| <= MaxPayload
    modifies memory
    ensures memory[..] == old(memory[..at]) + Encode(Record(true, name)) + old(memory[at + |name| + 3..])
    ensures memory[at + 3..at + 3 + |name|] == name
  {
    var length := |name|;
    memory[at] := 1;
    memory[at + 1] := LowByte(length);
    memory[at + 2] := HighByte(length);
    ghost var m1 := memory[..];
    assert m1 == old(memory[..])[at := 1][at + 1 := LowByte(length)][at + 2 := HighByte(length)];
    var nameArr := new Byte[length](k => if 0 <= k < length then name[k] else 0);
    assert nameArr[0..length] == name;
    CopyBytes(nameArr, 0, memory, at + 3, length);
    Spliced(old(memory[..]), m1, memory[..], at, name);
    assert memory[at + 3..at + 3 + length] == nameArr[0..length];
  }

  /**
   * The copy of one record in the loop of expandMemory: the record at i,
   * whose flag is set, goes with its header to newOffset in the new buffer.
   */
  method CopyOut(memory: array<Byte>, i: int, newMemory: array<Byte>, newOffset: int, length: int,
                 ghost end: nat, ghost rs: seq<Record>, ghost n: nat)
    requires memory != newMemory && Short(rs) && end <= memory.Length && end <= newMemory.Length
    requires memory[..end] == Layout(rs) && forall j :: end <= j < memory.Length ==> memory[j] == 0
    requires n < |rs| && i == Start(rs, n) && i + 2 < memory.Length && memory[i] != 0
    requires length == GetShortLE(memory[i + 1], memory[i + 2])
    requires newMemory[..] == Copied(rs, n, newMemory.Length) && newOffset == |Compacted(rs[..n])|
    modifies newMemory
    ensures newMemory[..] == Copied(rs, n + 1, newMemory.Length)
    ensures newOffset + length + 3 == |Compacted(rs[..n + 1])|
  {
    ghost var m := memory[..];
    assert m[i] != 0 && length == GetShortLE(m[i + 1], m[i + 2]);
    CopyOutStep(m, end, rs, n, i, newMemory.Length);
    CopyBytes(memory, i, newMemory, newOffset, length + 3);
  }

  /** What the copy of one live record adds to the new buffer, on values. */
  lemma CopyOutStep(m: seq<Byte>, end: nat, rs: seq<Record>, n: nat, i: nat, newLen: nat)
    requires Short(rs) && end <= |m| && m[..end] == Layout(rs) && end <= newLen
    requires forall j :: end <= j < |m| ==> m[j] == 0
    requires n < |rs| && i == Start(rs, n) && i + 2 < |m| && m[i] != 0
    ensures var len, c, o := GetShortLE(m[i + 1], m[i + 2]), Copied(rs, n, newLen), |Compacted(rs[..n])|;
      0 <= len && i + (len + 3) <= |m| && o + (len + 3) <= newLen && |c| == newLen &&
      o + len + 3 == |Compacted(rs[..n + 1])| &&
      c[..o] + m[i..i + (len + 3)] + c[o + (len + 3)..] == Copied(rs, n + 1, newLen)
  {
    CopyIteration(m, end, rs, n, i, newLen);
  }


  class DynamicByteArray {
    var memory: array<Byte>
    var blockSize: int
    var offset: int
    var artistTable: HashTable
    var songTable: HashTable
    /** The records in memory, in storage order. */
    ghost var records: seq<Record>

    /** The bytes before the cursor are the records' layout; every byte after it is zero. */
    ghost predicate Laid()
      reads this`memory, this`offset, this`records, memory
    {
      0 <= offset <= memory.Length && Short(records) &&
      memory[..offset] == Layout(records) &&
      forall j :: offset <= j < memory.Length ==> memory[j] == 0
    }

    /** Two distinct, valid tables. */
    ghost predicate TablesValid()
      reads this`artistTable, this`songTable, artistTable, artistTable.table, songTable, songTable.table
    {
      artistTable != songTable && artistTable.table != songTable.table &&
      artistTable.Valid() && songTable.Valid()
    }

    ghost predicate Valid()
      reads this, memory, artistTable, artistTable.table, songTable, songTable.table
    {
      0 <= blockSize && Laid() && TablesValid()
    }

    ghost function Tabled(): Tables
      reads this`artistTable, this`songTable, artistTable, artistTable.table, songTable, songTable.table
    {
      Tables(artistTable.table[..], songTable.table[..])
    }

    /** Every live record's handle can be moved: the source never meets a null artist handle. */
    ghost predicate Relocatable()
      reads this, memory, artistTable, artistTable.table, songTable, songTable.table
      requires Valid()
    {
      RelocateFrom(records, 0, Tabled(), memory.Length + blockSize).Some?
    }

    /** Every handle in either table starts at the payload of one of the records and reads that payload. */
    ghost predicate Indexed()
      reads this, artistTable, artistTable.table, songTable, songTable.table
    {
      Short(records) && AllPoint(records, artistTable.table[..]) && AllPoint(records, songTable.table[..])
    }

    /** The relocation of expandMemory rewrites every slot that holds a handle. */
    ghost predicate ReachesAll()
      reads this, memory, artistTable, artistTable.table, songTable, songTable.table
      requires Valid() && Relocatable()
    {
      Reached(Tabled(), RelocateFrom(records, 0, Tabled(), memory.Length + blockSize).value)
    }

    /**
     * A handle taken from a table of an indexed buffer is one delete
     * accepts: it starts at the payload of a record, and reads that
     * record's payload.
     */
    lemma TableHandle(h: Handle, isArtist: bool)
      requires Valid() && Indexed() && h in Live(Chosen(isArtist).table[..])
      ensures IsPayloadStart(records, h.startingLocation)
      ensures GetStringAt(h) == Some(records[RecordIndex(records, h.startingLocation)].payload)
    {
      var n :| 0 <= n < |records| && Start(records, n) + 3 == h.startingLocation && GetStringAt(h) == Some(records[n].payload);
      var m := RecordIndex(records, h.startingLocation);
      if n < m {
        StartIncreasing(records, n, m);
      } else if m < n {
        StartIncreasing(records, m, n);
      }
    }

    /** The table insert and delete work on. */
    ghost function Chosen(isArtist: bool): HashTable
      reads this`artistTable, this`songTable
    {
      if isArtist then artistTable else songTable
    }

    /** Where name sits in its table, -1 when it is not there. */
    ghost function Lookup(name: seq<Byte>, isArtist: bool): int
      reads this, memory, artistTable, artistTable.table, songTable, songTable.table
      requires Valid()
    {
      Scan(Chosen(isArtist).table[..], Content(name))
    }

    /** insert expands memory first when a record for name would reach its end. */
    ghost predicate Grown(name: seq<Byte>)
      reads this`offset, this`memory
    {
      offset + |name| + 3 >= memory.Length
    }

    /** The slots of both tables once insert is ready to write: relocated when memory grows. */
    ghost function Prepared(name: seq<Byte>): Tables
      reads this, memory, artistTable, artistTable.table, songTable, songTable.table
      requires Valid() && (Grown(name) ==> Relocatable())
    {
      if Grown(name) then RelocateFrom(records, 0, Tabled(), memory.Length + blockSize).value else Tabled()
    }

    /** The records insert keeps: only the live ones when memory grows. */
    ghost function Kept(name: seq<Byte>): seq<Record>
      reads this, memory
    {
      if Grown(name) then LiveRecords(records) else records
    }

    /** The cursor insert writes at: past the live records when memory grows. */
    ghost function Cursor(name: seq<Byte>): int
      reads this, memory
      requires Short(records)
    {
      if Grown(name) then |Compacted(records)| else offset
    }

    /**
     * What insert needs when name is new to its table: a grown buffer has
     * room for the record (and every handle can be moved), and the table
     * can take one more handle.
     */
    ghost predicate Room(name: seq<Byte>, isArtist: bool)
      reads this, memory, artistTable, artistTable.table, songTable, songTable.table
      requires Valid()
    {
      Lookup(name, isArtist) == -1 ==>
        (Grown(name) ==> Relocatable() && |Compacted(records)| + |name| + 3 <= memory.Length + blockSize) &&
        var t, ts := Chosen(isArtist), Prepared(name);
        0 < t.physicalSize &&
        (t.Grows() ==> 2 * t.physicalSize <= MaxTable &&
                       Rehash(if isArtist then ts.artist else ts.song, 2 * t.physicalSize).Some?)
    }

    constructor(initialSize: int, aTable: HashTable, sTable: HashTable)
      requires 0 <= initialSize
      requires aTable != sTable && aTable.table != sTable.table && aTable.Valid() && sTable.Valid()
      ensures Valid() && fresh(memory)
      ensures records == [] && offset == 0 && memory.Length == initialSize && blockSize == initialSize
      ensures artistTable == aTable && songTable == sTable
      ensures Live(aTable.table[..]) == multiset{} && Live(sTable.table[..]) == multiset{} ==> Indexed()
    {
      blockSize := initialSize;
      memory := new Byte[initialSize](_ => 0);
      offset := 0;
      artistTable := aTable;
      songTable := sTable;
      records := [];
    }

    /**
     * toString: the payloads of the records whose flag is not zero, in
     * storage order, read by walking the buffer record by record.
     */
    method ToString() returns (list: seq<seq<Byte>>)
      requires Valid()
      ensures list == LivePayloads(records)
    {
      list := [];
      var bytes := memory[..];
      var i := 0;
      ghost var n: nat := 0;
      ghost var rs := records;
      while i < |bytes| - 2
        invariant 0 <= n <= |rs| && 0 <= i
        invariant n < |rs| ==> i == Start(rs, n)
        invariant n == |rs| ==> offset <= i
        invariant list == LivePayloads(rs[..n])
        decreases |bytes| - i
      {
        ghost var n' := WalkStep(bytes, offset, rs, n, i, list);
        var length := GetShortLE(bytes[i + 1], bytes[i + 2]);
        if bytes[i] != 0 {
          var s := CopyOfRange(bytes, i + 3, i + 3 + length);
          list := list + [s.value];
        }
        i, n := i + length + 3, n';
      }
      if n < |rs| {
        DecodeIn(bytes, offset, rs, n);
      }
      assert rs[..n] == rs;
    }

    /** The flag byte in front of the payload at start becomes zero: its record is deleted. */
    method ClearFlag(start: int)
      requires Laid() && IsPayloadStart(records, start)
      modifies this, memory
      ensures Laid() && memory == old(memory) && offset == old(offset) && blockSize == old(blockSize)
      ensures artistTable == old(artistTable) && songTable == old(songTable)
      ensures records == MarkDeleted(old(records), RecordIndex(old(records), start))
      ensures memory[..] == old(memory[..])[start - 3 := 0]
    {
      ghost var n, m := RecordIndex(records, start), memory[..];
      DeleteIn(m, offset, records, n);
      memory[start - 3] := 0;
      records := MarkDeleted(records, n);
      assert memory[..] == m[start - 3 := 0];
    }

    /**
     * delete: the flag byte in front of the handle's payload becomes zero,
     * which marks its record deleted, and the handle leaves the artist or
     * the song table.
     */
    method Delete(handle: Handle, isArtist: bool)
      requires Valid() && GetStringAt(handle).Some? && IsPayloadStart(records, handle.startingLocation)
      modifies this, memory, artistTable, artistTable.table, songTable, songTable.table
      ensures Valid()
      ensures memory == old(memory) && offset == old(offset) && blockSize == old(blockSize)
      ensures artistTable == old(artistTable) && songTable == old(songTable)
      ensures records == MarkDeleted(old(records), RecordIndex(old(records), handle.startingLocation))
      ensures memory[..] == old(memory[..])[handle.startingLocation - 3 := 0]
      ensures artistTable.table[..] == if isArtist then Deleted(old(artistTable.table[..]), handle) else old(artistTable.table[..])
      ensures songTable.table[..] == if isArtist then old(songTable.table[..]) else Deleted(old(songTable.table[..]), handle)
      ensures old(Indexed()) ==> Indexed()
    {
      var start := handle.startingLocation;
      ghost var j, rs, indexed := RecordIndex(records, start), records, Indexed();
      ghost var a, so := artistTable.table[..], songTable.table[..];
      ClearFlag(start);
      Unindex(handle, isArtist);
      if indexed {
        DeletedIndexed(rs, j, handle, a, so, isArtist);
      }
    }

    /** The table delete of delete: the handle leaves the artist or the song table; the other table is untouched. */
    method Unindex(h: Handle, isArtist: bool)
      requires TablesValid() && GetStringAt(h).Some?
      modifies artistTable, artistTable.table, songTable, songTable.table
      ensures TablesValid()
      ensures artistTable.table[..] == if isArtist then Deleted(old(artistTable.table[..]), h) else old(artistTable.table[..])
      ensures songTable.table[..] == if isArtist then old(songTable.table[..]) else Deleted(old(songTable.table[..]), h)
    {
      var removed;
      if isArtist {
        removed := artistTable.Delete(h);
      } else {
        removed := songTable.Delete(h);
      }
    }

    /** The arena after delete, over the records and the tables before it, stays indexed. */
    lemma DeletedIndexed(rs: seq<Record>, j: nat, h: Handle, a: seq<Slot>, s: seq<Slot>, isArtist: bool)
      requires Short(rs) && j < |rs| && AllPoint(rs, a) && AllPoint(rs, s) && GetStringAt(h).Some?
      requires records == MarkDeleted(rs, j)
      requires artistTable.table[..] == if isArtist then Deleted(a, h) else a
      requires songTable.table[..] == if isArtist then s else Deleted(s, h)
      ensures Indexed()
    {
      DeletedPoints(rs, j, h, a, s, isArtist);
    }

    /**
     * The handle update of expandMemory for one copied record: the song
     * table's handle with this payload moves to the new position when it
     * points at the old one, otherwise the artist table's handle with this
     * payload moves. A moved handle keeps its length.
     */
    method MoveHandle(payload: seq<Byte>, oldStart: int, moved: Handle, ghost ts: Tables)
      requires TablesValid() && Tabled() == ts && GetStringAt(moved).Some?
      requires Relocate(ts, payload, oldStart, moved).Some?
      modifies artistTable.table, songTable.table
      ensures TablesValid()
      ensures Some(Tabled()) == Relocate(ts, payload, oldStart, moved)
    {
      var artistPos, artist := artistTable.Search(payload);
      var songPos, song := songTable.Search(payload);
      if song.Some? && song.value.startingLocation == oldStart {
        songTable.SetHandle(songPos, moved);
      } else {
        artistTable.SetHandle(artistPos, moved);
      }
    }

    /** MoveHandle for record n of rs while the live records are copied: it is the next step of RelocateFrom. */
    method MoveRecord(payload: seq<Byte>, oldStart: int, moved: Handle,
                      ghost rs: seq<Record>, ghost n: nat, ghost newLen: nat, ghost ts: Tables)
      requires TablesValid() && Tabled() == ts && Short(rs) && n < |rs| && rs[n].live && GetStringAt(moved).Some?
      requires payload == rs[n].payload && oldStart == Start(rs, n) + 3
      requires moved == Moved(rs, n, newLen)
      requires RelocateFrom(rs, n, ts, newLen).Some?
      modifies artistTable.table, songTable.table
      ensures TablesValid() && RelocateFrom(rs, n + 1, Tabled(), newLen) == RelocateFrom(rs, n, ts, newLen)
    {
      MoveHandle(payload, oldStart, moved, ts);
    }

    /**
     * Where the copy loop of expandMemory stands at position i: record n
     * starts there (or every record lies before it), and newMemory, a
     * zeroed buffer blockSize bytes longer than memory, holds the live
     * records among the first n laid out one after another, with newOffset
     * just past them.
     */
    ghost predicate Copying(i: int, newMemory: array<Byte>, newOffset: int, n: nat)
      reads this`memory, this`offset, this`records, this`blockSize, memory, newMemory
    {
      Laid() && newMemory != memory && 0 <= i && n <= |records| &&
      (n < |records| ==> i == Start(records, n)) && (n == |records| ==> offset <= i) &&
      newMemory.Length == memory.Length + blockSize && newMemory[..] == Copied(records, n, newMemory.Length) &&
      newOffset == |Compacted(records[..n])|
    }

    /**
     * One pass of the loop of expandMemory at position i: a record whose
     * flag is not zero is copied to the end of the new buffer and its
     * handle moves with it; the pass lands on the next record.
     */
    method CopyRecord(i: int, newMemory: array<Byte>, newOffset: int, ghost n: nat)
      returns (length: int, newOffset': int, ghost n': nat)
      requires Valid() && Copying(i, newMemory, newOffset, n) && i + 2 < memory.Length
      requires RelocateFrom(records, n, Tabled(), newMemory.Length).Some?
      modifies newMemory, artistTable.table, songTable.table
      ensures Valid() && 0 <= length && Copying(i + length + 3, newMemory, newOffset', n')
      ensures RelocateFrom(records, n', Tabled(), newMemory.Length) == old(RelocateFrom(records, n, Tabled(), newMemory.Length))
    {
      if memory[i] != 0 {
        length := CopyLiveRecord(i, newMemory, newOffset, n);
        newOffset', n' := newOffset + length + 3, n + 1;
      } else {
        length, n' := SkipRecord(i, newMemory, newOffset, n);
        newOffset' := newOffset;
      }
    }

    /**
     * A pass of the loop of expandMemory at position i whose flag is not
     * zero: record n is live, it is copied to the end of the new buffer,
     * its handle moves with it, and the pass lands on record n + 1.
     */
    method CopyLiveRecord(i: int, newMemory: array<Byte>, newOffset: int, ghost n: nat) returns (length: int)
      requires Valid() && Copying(i, newMemory, newOffset, n) && i + 2 < memory.Length && memory[i] != 0
      requires RelocateFrom(records, n, Tabled(), newMemory.Length).Some?
      modifies newMemory, artistTable.table, songTable.table
      ensures Valid() && 0 <= length && n < |records| && records[n].live && length == |records[n].payload|
      ensures Copying(i + length + 3, newMemory, newOffset + length + 3, n + 1)
      ensures RelocateFrom(records, n + 1, Tabled(), newMemory.Length) == old(RelocateFrom(records, n, Tabled(), newMemory.Length))
    {
      ghost var ts := Tabled();
      CopyIteration(memory[..], offset, records, n, i, newMemory.Length);
      length := GetShortLE(memory[i + 1], memory[i + 2]);
      var searchString := CopyOfRange(memory[..], i + 3, i + 3 + length).value;
      CopyOut(memory, i, newMemory, newOffset, length, offset, records, n);
      MoveRecord(searchString, i + 3, Handle(newMemory[..], newOffset + 3, length), records, n, newMemory.Length, ts);
    }

    /**
     * A pass of the loop of expandMemory at position i whose flag is zero:
     * record n is deleted (or every record lies before i), nothing is
     * copied, no handle moves, and the pass lands on the next record.
     */
    method SkipRecord(i: int, newMemory: array<Byte>, newOffset: int, ghost n: nat) returns (length: int, ghost n': nat)
      requires Valid() && Copying(i, newMemory, newOffset, n) && i + 2 < memory.Length && memory[i] == 0
      ensures 0 <= length && n' == if n < |records| then n + 1 else n
      ensures length == GetShortLE(memory[i + 1], memory[i + 2])
      ensures n < |records| ==> !records[n].live
      ensures Copying(i + length + 3, newMemory, newOffset, n')
      ensures RelocateFrom(records, n', Tabled(), newMemory.Length) == RelocateFrom(records, n, Tabled(), newMemory.Length)
    {
      n' := if n < |records| then n + 1 else n;
      CopyIteration(memory[..], offset, records, n, i, newMemory.Length);
      length := GetShortLE(memory[i + 1], memory[i + 2]);
    }

    /**
     * The copy loop of expandMemory: the live records go one after another
     * into a new zeroed buffer blockSize bytes longer than memory, and the
     * handle of each copied record moves with it.
     */
    method CopyLive() returns (newMemory: array<Byte>, newOffset: int)
      requires Valid() && Relocatable()
      modifies artistTable.table, songTable.table
      ensures fresh(newMemory) && newMemory.Length == memory.Length + blockSize
      ensures newMemory[..] == Copied(records, |records|, newMemory.Length)
      ensures newOffset == |Compacted(records)|
      ensures TablesValid()
      ensures Some(Tabled()) == old(RelocateFrom(records, 0, Tabled(), memory.Length + blockSize))
    {
      newMemory := new Byte[memory.Length + blockSize](_ => 0);
      newOffset := 0;
      var i := 0;
      ghost var n: nat := 0;
      ghost var goal := RelocateFrom(records, 0, Tabled(), newMemory.Length);
      assert newMemory[..] == Copied(records, 0, newMemory.Length);
      while i < memory.Length - 2
        invariant Valid() && Copying(i, newMemory, newOffset, n)
        invariant RelocateFrom(records, n, Tabled(), newMemory.Length) == goal
        decreases memory.Length - i
      {
        var length;
        length, newOffset, n := CopyRecord(i, newMemory, newOffset, n);
        i := i + length + 3;
      }
      if n < |records| {
        DecodeIn(memory[..], offset, records, n);
      }
      assert records[..n] == records;
    }

    /**
     * expandMemory: a buffer blockSize bytes longer replaces memory; the
     * live records are copied into it one after another, deleted ones are
     * dropped, and the handle of each copied record moves with it. Each
     * slot is left as it was or reads what it read from where a live
     * record's payload now starts; when the moves reach every handle, the
     * arena stays indexed.
     */
    method ExpandMemory()
      requires Valid() && Relocatable()
      modifies this, artistTable.table, songTable.table
      ensures Valid() && fresh(memory)
      ensures memory.Length == old(memory.Length) + blockSize && blockSize == old(blockSize)
      ensures records == LiveRecords(old(records)) && offset == |Compacted(old(records))|
      ensures artistTable == old(artistTable) && songTable == old(songTable)
      ensures Some(Tabled()) == old(RelocateFrom(records, 0, Tabled(), memory.Length + blockSize))
      ensures Moves(old(Tabled()), Tabled(), records)
      ensures old(ReachesAll()) ==> Indexed()
    {
      ghost var rs, ts, newLen, reached := records, Tabled(), memory.Length + blockSize, ReachesAll();
      Expand();
      Relocated(rs, ts, newLen, reached);
    }

    /** The copy and the swap of expandMemory. */
    method Expand()
      requires Valid() && Relocatable()
      modifies this, artistTable.table, songTable.table
      ensures Valid() && fresh(memory)
      ensures memory.Length == old(memory.Length) + blockSize && blockSize == old(blockSize)
      ensures records == LiveRecords(old(records)) && offset == |Compacted(old(records))|
      ensures artistTable == old(artistTable) && songTable == old(songTable)
      ensures Some(Tabled()) == old(RelocateFrom(records, 0, Tabled(), memory.Length + blockSize))
    {
      CopiedLaid(records, memory.Length + blockSize);
      var newMemory, newOffset := CopyLive();
      Install(newMemory, newOffset);
    }

    /** The end of expandMemory: the new buffer, holding the live records, replaces memory. */
    method Install(newMemory: array<Byte>, newOffset: int)
      requires 0 <= blockSize && TablesValid() && Short(LiveRecords(records))
      requires 0 <= newOffset <= newMemory.Length && newMemory[..newOffset] == Layout(LiveRecords(records))
      requires forall j :: newOffset <= j < newMemory.Length ==> newMemory[j] == 0
      modifies this
      ensures Valid() && memory == newMemory && offset == newOffset && records == LiveRecords(old(records))
      ensures blockSize == old(blockSize) && artistTable == old(artistTable) && songTable == old(songTable)
    {
      memory, offset, records := newMemory, newOffset, LiveRecords(records);
      assert Laid();
    }

    /**
     * The tables after expandMemory's moves, over the live records of rs:
     * each slot is moved correctly, and when the moves reach every handle
     * the arena is indexed.
     */
    lemma Relocated(rs: seq<Record>, ts: Tables, newLen: nat, reached: bool)
      requires Short(rs) && RelocateFrom(rs, 0, ts, newLen).Some?
      requires records == LiveRecords(rs) && Some(Tabled()) == RelocateFrom(rs, 0, ts, newLen)
      requires reached ==> Reached(ts, RelocateFrom(rs, 0, ts, newLen).value)
      ensures Short(records) && Moves(ts, Tabled(), records)
      ensures reached ==> Indexed()
    {
      RelocationPoints(rs, ts, newLen);
      if reached {
        ReachedPoints(rs, ts, newLen);
      }
    }

    /** The expansion step of insert: memory grows when a record for name would reach its end. */
    method MakeRoom(name: seq<Byte>, isArtist: bool, ghost ts: Tables)
      requires Valid() && (Grown(name) ==> Relocatable() && |Compacted(records)| + |name| + 3 <= memory.Length + blockSize)
      requires ts == Prepared(name)
      requires var t := Chosen(isArtist);
        0 < t.physicalSize &&
        (t.Grows() ==> 2 * t.physicalSize <= MaxTable &&
                       Rehash(if isArtist then ts.artist else ts.song, 2 * t.physicalSize).Some?)
      modifies this, artistTable.table, songTable.table
      ensures Valid() && offset + |name| + 3 <= memory.Length && (memory == old(memory) || fresh(memory))
      ensures artistTable == old(artistTable) && songTable == old(songTable) && blockSize == old(blockSize)
      ensures Tabled() == ts && Chosen(isArtist).CanInsert()
      ensures records == old(Kept(name)) && offset == old(Cursor(name))
      ensures memory.Length == old(memory.Length + if Grown(name) then blockSize else 0)
      ensures old(Indexed()) && (old(Grown(name)) ==> old(ReachesAll())) ==> Indexed()
    {
      if offset + |name| + 3 >= memory.Length {
        ExpandMemory();
      }
    }

    /**
     * The table insert of insert: the handle goes into the artist or the
     * song table, which may grow on the way; the other table is untouched.
     */
    method Index(h: Handle, isArtist: bool)
      requires TablesValid() && GetStringAt(h).Some? && Chosen(isArtist).CanInsert()
      modifies artistTable, artistTable.table, songTable, songTable.table
      ensures TablesValid()
      ensures if isArtist then songTable.table[..] == old(songTable.table[..]) else artistTable.table[..] == old(artistTable.table[..])
      ensures var live, prior := Live(Chosen(isArtist).table[..]), old(Live(Chosen(isArtist).table[..]));
        live == prior || live == prior + multiset{h}
    {
      var ok;
      if isArtist {
        ok := artistTable.Insert(h);
      } else {
        ok := songTable.Insert(h);
      }
    }

    /**
     * The writes of insert at the cursor: flag 1, the length in
     * little-endian order, then the payload; the handle points at the
     * payload and the cursor moves past the record.
     */
    method PutRecord(name: seq<Byte>) returns (h: Handle)
      requires Laid() && |name| <= MaxPayload && offset + |name| + 3 <= memory.Length
      modifies this, memory
      ensures Laid() && memory == old(memory) && records == old(records) + [Record(true, name)]
      ensures offset == old(offset) + |name| + 3
      ensures blockSize == old(blockSize) && artistTable == old(artistTable) && songTable == old(songTable)
      ensures h == Handle(memory[..], old(offset) + 3, |name|) && GetStringAt(h) == Some(name)
    {
      ghost var m0 := memory[..];
      WriteAt(memory, offset, name);
      h := Handle(memory[..], offset + 3, |name|);
      WriteRecord(m0, memory[..], records, Record(true, name));
      offset := offset + |name| + 3;
      records := records + [Record(true, name)];
    }

    /**
     * The state insert leaves when it adds a record for name after the
     * records kept, at cursor start, with the tables prepared as ts: the
     * handle points at the new payload, the other table holds its
     * prepared slots and the chosen table gained at most that handle.
     */
    ghost predicate Added(name: seq<Byte>, isArtist: bool, h: Handle, kept: seq<Record>, start: int, ts: Tables)
      reads this, memory, artistTable, artistTable.table, songTable, songTable.table
    {
      records == kept + [Record(true, name)] &&
      h == Handle(memory[..], start + 3, |name|) &&
      (if isArtist then songTable.table[..] == ts.song else artistTable.table[..] == ts.artist) &&
      var live, prior := Live(Chosen(isArtist).table[..]), Live(if isArtist then ts.artist else ts.song);
      live == prior || live == prior + multiset{h}
    }

    /** Writing the record at the cursor and putting its handle in the table, once memory has room. */
    method Place(name: seq<Byte>, isArtist: bool, ghost ts: Tables) returns (h: Handle)
      requires Valid() && |name| <= MaxPayload && offset + |name| + 3 <= memory.Length
      requires Tabled() == ts && Chosen(isArtist).CanInsert()
      modifies this, memory, artistTable, artistTable.table, songTable, songTable.table
      ensures Valid() && GetStringAt(h) == Some(name)
      ensures artistTable == old(artistTable) && songTable == old(songTable) && blockSize == old(blockSize)
      ensures memory == old(memory)
      ensures Added(name, isArtist, h, old(records), old(offset), ts)
      ensures old(Indexed()) ==> Indexed()
    {
      ghost var rs, indexed := records, Indexed();
      assert |Layout(rs)| == offset;
      h := PutRecord(name);
      assert Laid() && Tabled() == ts;
      ghost var bytes := memory[..];
      Index(h, isArtist);
      assert memory[..] == bytes;
      if indexed {
        PlacedPoints(rs, Record(true, name), h, ts, Tabled(), isArtist);
      }
    }

    /**
     * The part of insert for a name new to its table: memory grows first
     * when the record would reach its end, the record is written at the
     * cursor and a handle to its payload goes into the table.
     */
    method Add(name: seq<Byte>, isArtist: bool, ghost ts: Tables) returns (h: Handle)
      requires Valid() && |name| <= MaxPayload
      requires Grown(name) ==> Relocatable() && |Compacted(records)| + |name| + 3 <= memory.Length + blockSize
      requires ts == Prepared(name)
      requires var t := Chosen(isArtist);
        0 < t.physicalSize &&
        (t.Grows() ==> 2 * t.physicalSize <= MaxTable &&
                       Rehash(if isArtist then ts.artist else ts.song, 2 * t.physicalSize).Some?)
      modifies this, memory, artistTable, artistTable.table, songTable, songTable.table
      ensures Valid() && GetStringAt(h) == Some(name)
      ensures artistTable == old(artistTable) && songTable == old(songTable) && blockSize == old(blockSize)
      ensures memory.Length == old(memory.Length + if Grown(name) then blockSize else 0)
      ensures Added(name, isArtist, h, old(Kept(name)), old(Cursor(name)), ts)
      ensures old(Indexed()) && (old(Grown(name)) ==> old(ReachesAll())) ==> Indexed()
    {
      MakeRoom(name, isArtist, ts);
      h := Place(name, isArtist, ts);
    }

    /**
     * insert: a name already in its table gives back the handle found
     * there and changes nothing. Otherwise memory grows first when the
     * record would reach its end, the record is written at the cursor and
     * a handle to its payload goes into the table.
     */
    method Insert(name: seq<Byte>, isArtist: bool) returns (h: Handle)
      requires Valid() && |name| <= MaxPayload && Room(name, isArtist)
      modifies this, memory, artistTable, artistTable.table, songTable, songTable.table
      ensures Valid() && GetStringAt(h) == Some(name)
      ensures artistTable == old(artistTable) && songTable == old(songTable) && blockSize == old(blockSize)
      ensures old(Lookup(name, isArtist)) != -1 ==>
        Full(h) == old(Chosen(isArtist).table[Lookup(name, isArtist)]) &&
        records == old(records) && memory == old(memory) && memory[..] == old(memory[..]) &&
        offset == old(offset) && Tabled() == old(Tabled())
      ensures old(Lookup(name, isArtist)) == -1 ==>
        memory.Length == old(memory.Length + if Grown(name) then blockSize else 0) &&
        Added(name, isArtist, h, old(Kept(name)), old(Cursor(name)), old(Prepared(name)))
      ensures old(Indexed()) && (old(Lookup(name, isArtist)) == -1 && old(Grown(name)) ==> old(ReachesAll())) ==> Indexed()
    {
      var pos, found;
      if isArtist {
        pos, found := artistTable.Search(name);
      } else {
        pos, found := songTable.Search(name);
      }
      if found.Some? {
        return found.value;
      }
      h := Add(name, isArtist, Prepared(name));
    }
  }
}
