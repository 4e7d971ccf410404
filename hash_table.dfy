/**
 * The open-addressing table of handles with quadratic probing
 * (src/HashTable.java). A slot is empty (null in the source), holds the
 * shared GRAVESTONE sentinel, or holds a handle. The sentinel is compared
 * by reference in the source, so it gets a constructor of its own here.
 */
module HashTables {
  import opened Wrappers
  import opened Handles

  datatype Slot = Empty | Gravestone | Full(handle: Handle)

  /**
   * The largest table whose probe arithmetic stays inside Java's int:
   * for a home below M and i below M, home + i*i < M*M <= 2^31 - 1.
   */
  const MaxTable: int := 46340

  // ---------------------------------------------------------------
  // The home slot: a sum of the name's 4-character groups
  // ---------------------------------------------------------------

  function Pow256(k: nat): nat {
    if k == 0 then 1 else 256 * Pow256(k - 1)
  }

  /** A group read as a little-endian number: the sum of c[k] * 256^k. */
  function Group(g: seq<Byte>): nat
    decreases |g|
  {
    if |g| == 0 then 0 else Group(g[..|g| - 1]) + g[|g| - 1] * Pow256(|g| - 1)
  }

  /** The sum over every full 4-character group and then the shorter tail. */
  function Fold(s: seq<Byte>): nat
    decreases |s|
  {
    if |s| < 4 then Group(s) else Group(s[..4]) + Fold(s[4..])
  }

  function Home(name: seq<Byte>, m: int): (h: int)
    requires m > 0
    ensures 0 <= h < m
  {
    Fold(name) % m
  }

  /** The i-th probe position from `home`: (home + i*i) % M. */
  function ProbeAt(home: int, i: nat, m: int): (p: int)
    requires home >= 0 && m > 0
    ensures 0 <= p < m
  {
    (home + i * i) % m
  }

  /** For a table no longer than MaxTable, home + i*i never overflows Java's int. */
  lemma ProbeFitsInt(home: int, i: int, m: int)
    requires 0 <= home < m <= MaxTable && 0 <= i < m
    ensures home + i * i < 0x8000_0000
  {
    MulMonotone(i, MaxTable, i);
    MulMonotone(i, MaxTable, MaxTable);
  }

  lemma MulMonotone(a: int, b: int, c: int)
    requires 0 <= a <= b && 0 <= c
    ensures a * c <= b * c
  {
  }

  // ---------------------------------------------------------------
  // Probing, on the contents of a table
  // ---------------------------------------------------------------

  /** The first probe index at or after i whose slot is empty, or |slots| if none is. */
  function FirstFree(slots: seq<Slot>, home: int, i: nat): (r: nat)
    requires home >= 0
    ensures i <= r || r == |slots|
    ensures r <= |slots| || r == i
    ensures i <= |slots| ==> i <= r <= |slots|
    ensures forall j :: i <= j < r && j < |slots| ==> slots[ProbeAt(home, j, |slots|)] != Empty
    ensures r < |slots| ==> slots[ProbeAt(home, r, |slots|)] == Empty
    decreases |slots| - i
  {
    if i >= |slots| then (if i == |slots| then i else |slots|)
    else if slots[ProbeAt(home, i, |slots|)] == Empty then i
    else FirstFree(slots, home, i + 1)
  }

  /** quadraticProbe: the first empty slot on the probe sequence, or -1. */
  function Probe(slots: seq<Slot>, home: int): (pos: int)
    requires home >= 0
  {
    var r := FirstFree(slots, home, 0);
    if r == |slots| then -1 else ProbeAt(home, r, |slots|)
  }

  /**
   * The probe takes only empty slots: it returns -1 exactly when every
   * position on the sequence is taken (a gravestone counts as taken), and
   * otherwise an empty slot that no earlier probe position reached.
   */
  lemma ProbeSpec(slots: seq<Slot>, home: int)
    requires home >= 0
    ensures Probe(slots, home) == -1 <==>
              forall j :: 0 <= j < |slots| ==> slots[ProbeAt(home, j, |slots|)] != Empty
    ensures Probe(slots, home) != -1 ==>
              0 <= Probe(slots, home) < |slots| && slots[Probe(slots, home)] == Empty
  {
    var r := FirstFree(slots, home, 0);
    if r < |slots| {
      assert slots[ProbeAt(home, r, |slots|)] == Empty;
    }
  }

  /** The handles a table holds, with their multiplicities. */
  function Live(s: seq<Slot>): multiset<Handle>
    decreases |s|
  {
    if |s| == 0 then multiset{}
    else (if s[0].Full? then multiset{s[0].handle} else multiset{}) + Live(s[1..])
  }

  function SlotHandles(x: Slot): multiset<Handle> {
    if x.Full? then multiset{x.handle} else multiset{}
  }

  lemma {:induction false} LiveUpdate(s: seq<Slot>, p: int, x: Slot)
    requires 0 <= p < |s|
    ensures Live(s[p := x]) + SlotHandles(s[p]) == Live(s) + SlotHandles(x)
    decreases |s|
  {
    if p > 0 {
      assert s[p := x][0] == s[0];
      assert s[p := x][1..] == s[1..][p - 1 := x];
      LiveUpdate(s[1..], p - 1, x);
      assert s[1..][p - 1] == s[p];
      calc {
        Live(s[p := x]) + SlotHandles(s[p]);
        SlotHandles(s[0]) + Live(s[1..][p - 1 := x]) + SlotHandles(s[p]);
        SlotHandles(s[0]) + (Live(s[1..][p - 1 := x]) + SlotHandles(s[1..][p - 1]));
        SlotHandles(s[0]) + (Live(s[1..]) + SlotHandles(x));
        Live(s) + SlotHandles(x);
      }
    } else {
      assert s[p := x][1..] == s[1..];
    }
  }

  /** delete only takes handles out. */
  lemma DeletedLive(s: seq<Slot>, h: Handle)
    requires GetStringAt(h).Some?
    ensures Live(Deleted(s, h)) <= Live(s)
  {
    var pos := Scan(s, SameHandle(h));
    if pos != -1 {
      LiveUpdate(s, pos, Gravestone);
      assert Live(Deleted(s, h)) + SlotHandles(s[pos]) == Live(s);
    }
  }

  /** A handle the table holds sits in one of its slots. */
  lemma {:induction false} LiveMember(s: seq<Slot>, h: Handle)
    requires h in Live(s)
    ensures exists i :: 0 <= i < |s| && s[i] == Full(h)
    decreases |s|
  {
    if s[0] != Full(h) {
      LiveMember(s[1..], h);
      var i :| 0 <= i < |s| - 1 && s[1..][i] == Full(h);
      assert s[i + 1] == Full(h);
    }
  }

  lemma {:induction false} LiveEmpty(n: nat)
    ensures Live(seq(n, _ => Empty)) == multiset{}
  {
    if n > 0 {
      assert seq(n, _ => Empty)[1..] == seq(n - 1, _ => Empty);
      LiveEmpty(n - 1);
    }
  }

  predicate AllDecodable(s: seq<Slot>) {
    forall i :: 0 <= i < |s| && s[i].Full? ==> GetStringAt(s[i].handle).Some?
  }

  predicate NoGravestones(s: seq<Slot>) {
    forall i :: 0 <= i < |s| ==> s[i] != Gravestone
  }

  // ---------------------------------------------------------------
  // expandTable, on the contents of a table
  // ---------------------------------------------------------------

  /**
   * Re-inserting slots[i..] into `acc` in slot order; None where the source
   * throws (a payload that cannot be read, a probe that finds no slot).
   */
  function RehashFrom(slots: seq<Slot>, i: nat, acc: seq<Slot>): Option<seq<Slot>>
    requires i <= |slots|
    decreases |slots| - i
  {
    if i == |slots| then Some(acc)
    else match slots[i]
      case Full(h) =>
        if GetStringAt(h).None? || |acc| == 0 then None
        else
          var p := Probe(acc, Home(GetStringAt(h).value, |acc|));
          if p == -1 then None else RehashFrom(slots, i + 1, acc[p := Full(h)])
      case _ => RehashFrom(slots, i + 1, acc)
  }

  function Rehash(slots: seq<Slot>, n: nat): Option<seq<Slot>> {
    RehashFrom(slots, 0, seq(n, _ => Empty))
  }

  lemma {:induction false} LiveSplit(s: seq<Slot>, i: nat)
    requires i < |s|
    ensures Live(s[i..]) == SlotHandles(s[i]) + Live(s[i + 1..])
  {
    assert s[i..][1..] == s[i + 1..];
  }

  /** Filling a free slot of a table with no gravestones with a readable handle. */
  lemma FillSpec(acc: seq<Slot>, p: int, h: Handle)
    requires NoGravestones(acc) && AllDecodable(acc) && GetStringAt(h).Some?
    requires 0 <= p < |acc| && acc[p] == Empty
    ensures var acc' := acc[p := Full(h)];
      NoGravestones(acc') && AllDecodable(acc') && Live(acc') == Live(acc) + multiset{h}
  {
    LiveUpdate(acc, p, Full(h));
  }

  lemma {:induction false} RehashFromSpec(slots: seq<Slot>, i: nat, acc: seq<Slot>)
    requires i <= |slots|
    requires RehashFrom(slots, i, acc).Some?
    requires NoGravestones(acc) && AllDecodable(acc)
    ensures var r := RehashFrom(slots, i, acc).value;
      |r| == |acc| && NoGravestones(r) && AllDecodable(r) && Live(r) == Live(acc) + Live(slots[i..])
    decreases |slots| - i
  {
    if i < |slots| {
      LiveSplit(slots, i);
      if slots[i].Full? {
        var h := slots[i].handle;
        var p := Probe(acc, Home(GetStringAt(h).value, |acc|));
        ProbeSpec(acc, Home(GetStringAt(h).value, |acc|));
        var acc' := acc[p := Full(h)];
        assert RehashFrom(slots, i, acc) == RehashFrom(slots, i + 1, acc');
        FillSpec(acc, p, h);
        RehashFromSpec(slots, i + 1, acc');
      } else {
        assert RehashFrom(slots, i, acc) == RehashFrom(slots, i + 1, acc);
        RehashFromSpec(slots, i + 1, acc);
      }
    }
  }

  /**
   * expandTable keeps every live handle, drops every gravestone and gives
   * the new table the requested size.
   */
  lemma RehashSpec(slots: seq<Slot>, n: nat)
    requires Rehash(slots, n).Some?
    ensures var r := Rehash(slots, n).value;
      |r| == n && NoGravestones(r) && AllDecodable(r) && Live(r) == Live(slots)
  {
    LiveEmpty(n);
    assert slots[0..] == slots;
    RehashFromSpec(slots, 0, seq(n, _ => Empty));
  }

  // ---------------------------------------------------------------
  // search and delete, on the contents of a table
  // ---------------------------------------------------------------

  /** What a lookup looks for: a payload (search) or a handle (delete). */
  datatype Target = Content(name: seq<Byte>) | SameHandle(target: Handle)

  predicate Matches(x: Slot, t: Target) {
    x.Full? &&
    match t
    case Content(name) => GetStringAt(x.handle) == Some(name)
    case SameHandle(h) => Equals(h, HandleRef(x.handle))
  }

  /**
   * A lookup follows the probe sequence from i, stops at the first empty
   * slot, passes over gravestones and non-matching handles, and gives the
   * position of the first match or -1.
   */
  function ScanFrom(slots: seq<Slot>, home: int, i: nat, t: Target): (pos: int)
    requires home >= 0
    ensures pos == -1 || (0 <= pos < |slots| && Matches(slots[pos], t))
    decreases |slots| - i
  {
    if i >= |slots| then -1
    else
      var p := ProbeAt(home, i, |slots|);
      if slots[p] == Empty then -1
      else if Matches(slots[p], t) then p
      else ScanFrom(slots, home, i + 1, t)
  }

  /** The home slot of a lookup: the hash of the name, or of the handle's payload. */
  function TargetName(t: Target): Option<seq<Byte>> {
    match t
    case Content(name) => Some(name)
    case SameHandle(h) => GetStringAt(h)
  }

  /** A lookup from the target's home slot; a table without slots holds nothing to find. */
  function Scan(slots: seq<Slot>, t: Target): (pos: int)
    requires TargetName(t).Some?
    ensures pos == -1 || (0 <= pos < |slots| && Matches(slots[pos], t))
  {
    if |slots| == 0 then -1 else ScanFrom(slots, Home(TargetName(t).value, |slots|), 0, t)
  }

  lemma {:induction false} ScanFindsInserted(slots: seq<Slot>, home: int, i: nat, h: Handle, t: Target)
    requires home >= 0 && i <= FirstFree(slots, home, i) < |slots|
    requires Matches(Full(h), t)
    ensures ScanFrom(slots[Probe1(slots, home, i) := Full(h)], home, i, t) != -1
    decreases |slots| - i
  {
    var r := FirstFree(slots, home, i);
    var p := ProbeAt(home, r, |slots|);
    var s' := slots[p := Full(h)];
    var q := ProbeAt(home, i, |slots|);
    if i < r {
      assert slots[q] != Empty;
      assert s'[q] != Empty;
      assert FirstFree(slots, home, i + 1) == r;
      ScanFindsInserted(slots, home, i + 1, h, t);
    } else {
      assert s'[q] == Full(h);
    }
  }

  /** The slot the probe from index i takes. */
  function Probe1(slots: seq<Slot>, home: int, i: nat): int
    requires home >= 0 && i <= FirstFree(slots, home, i) < |slots|
  {
    ProbeAt(home, FirstFree(slots, home, i), |slots|)
  }

  /**
   * Search after insert: once a handle is placed where the probe put it, a
   * lookup of its payload from the same home finds a handle with that payload.
   */
  lemma InsertThenSearch(slots: seq<Slot>, h: Handle)
    requires |slots| > 0 && GetStringAt(h).Some?
    requires Probe(slots, Home(GetStringAt(h).value, |slots|)) != -1
    ensures var name := GetStringAt(h).value;
      var s' := slots[Probe(slots, Home(name, |slots|)) := Full(h)];
      Scan(s', Content(name)) != -1 &&
      GetStringAt(s'[Scan(s', Content(name))].handle) == Some(name)
  {
    var name := GetStringAt(h).value;
    var home := Home(name, |slots|);
    assert FirstFree(slots, home, 0) < |slots|;
    ScanFindsInserted(slots, home, 0, h, Content(name));
  }

  /** The slots after delete(h): the slot holding a handle equal to h becomes a gravestone. */
  function Deleted(slots: seq<Slot>, h: Handle): seq<Slot>
    requires GetStringAt(h).Some?
  {
    var pos := Scan(slots, SameHandle(h));
    if pos == -1 then slots else slots[pos := Gravestone]
  }

  // ---------------------------------------------------------------
  // The table
  // ---------------------------------------------------------------

  class HashTable {
    /** The byte array handed to the constructor; no method of the table reads it. */
    var memory: array<Byte>
    var table: array<Slot>
    var logicalSize: int
    var physicalSize: int

    /**
     * The size is the table's length, the count is the number of live
     * handles, and every live handle can be read.
     */
    ghost predicate Valid()
      reads this, table
    {
      table.Length == physicalSize && 0 <= physicalSize <= MaxTable &&
      logicalSize == |Live(table[..])| && AllDecodable(table[..])
    }

    /** A table of `size` slots, all empty; a size of 0 gives a table without slots. */
    constructor(mem: array<Byte>, size: int)
      requires 0 <= size <= MaxTable
      ensures Valid() && fresh(table) && memory == mem
      ensures physicalSize == size && logicalSize == 0
      ensures forall i :: 0 <= i < table.Length ==> table[i] == Empty
      ensures Live(table[..]) == multiset{}
    {
      memory := mem;
      logicalSize := 0;
      physicalSize := size;
      table := new Slot[size](_ => Empty);
      new;
      assert table[..] == seq(size, _ => Empty);
      LiveEmpty(size);
    }

    /** Whether insert expands the table before probing. */
    ghost predicate Grows()
      reads this
    {
      logicalSize + 1 > physicalSize / 2
    }

    /**
     * What insert demands: a table with at least one slot (hashHelper takes
     * the sum modulo the length, which throws on an empty table), and an
     * expansion, if one happens, that stays in int range and places every
     * handle.
     */
    ghost predicate CanInsert()
      reads this, table
    {
      0 < physicalSize &&
      (Grows() ==> 2 * physicalSize <= MaxTable && Rehash(table[..], 2 * physicalSize).Some?)
    }

    /** The table insert probes: the expanded one when it grows, else the current one. */
    ghost function BeforeProbe(): seq<Slot>
      reads this, table
      requires CanInsert()
    {
      if Grows() then Rehash(table[..], 2 * physicalSize).value else table[..]
    }

    /** hashHelper: the sum of the groups of the payload, modulo the table length. */
    static method HashHelper(myTable: array<Slot>, name: seq<Byte>) returns (home: int)
      requires myTable.Length > 0
      ensures home == Home(name, myTable.Length)
    {
      var intLength := |name| / 4;
      var sum: int := 0;
      var j := 0;
      while j < intLength
        invariant 0 <= j <= intLength
        invariant sum + Fold(name[j * 4..]) == Fold(name)
      {
        assert name[j * 4..][..4] == name[j * 4..j * 4 + 4];
        assert name[j * 4..][4..] == name[(j + 1) * 4..];
        var c := name[j * 4..j * 4 + 4];
        ghost var base := sum;
        var mult: int := 1;
        var k := 0;
        while k < |c|
          invariant 0 <= k <= |c|
          invariant mult == Pow256(k)
          invariant sum == base + Group(c[..k])
        {
          assert c[..k + 1][..k] == c[..k];
          sum := sum + c[k] * mult;
          mult := mult * 256;
          k := k + 1;
        }
        assert c[..k] == c;
        j := j + 1;
      }
      var c := name[intLength * 4..];
      ghost var base := sum;
      var mult: int := 1;
      var k := 0;
      while k < |c|
        invariant 0 <= k <= |c|
        invariant mult == Pow256(k)
        invariant sum == base + Group(c[..k])
      {
        assert c[..k + 1][..k] == c[..k];
        sum := sum + c[k] * mult;
        mult := mult * 256;
        k := k + 1;
      }
      assert c[..k] == c;
      // the sum is never negative, so Math.abs leaves it alone
      home := sum % myTable.Length;
    }

    /** quadraticProbe */
    static method QuadraticProbe(myTable: array<Slot>, homePos: int) returns (pos: int)
      requires 0 <= homePos < myTable.Length <= MaxTable
      ensures pos == Probe(myTable[..], homePos)
    {
      var m := myTable.Length;
      var i := 0;
      while i < m
        invariant 0 <= i <= m
        invariant FirstFree(myTable[..], homePos, i) == FirstFree(myTable[..], homePos, 0)
      {
        ProbeFitsInt(homePos, i, m);
        pos := (homePos + i * i) % m;
        if myTable[pos] == Empty {
          return;
        }
        i := i + 1;
      }
      return -1;
    }

    /** hash: the probe from the payload's home slot. */
    static method Hash(myTable: array<Slot>, handle: Handle) returns (pos: int)
      requires 0 < myTable.Length <= MaxTable && GetStringAt(handle).Some?
      ensures pos == Probe(myTable[..], Home(GetStringAt(handle).value, myTable.Length))
    {
      var homePos := HashHelper(myTable, GetStringAt(handle).value);
      pos := QuadraticProbe(myTable, homePos);
    }

    /** expandTable */
    method ExpandTable()
      requires Valid() && 2 * physicalSize <= MaxTable
      requires Rehash(table[..], 2 * physicalSize).Some?
      modifies this
      ensures fresh(table) && logicalSize == old(logicalSize)
      ensures physicalSize == 2 * old(physicalSize)
      ensures table[..] == Rehash(old(table[..]), 2 * old(physicalSize)).value
      ensures Valid() && NoGravestones(table[..]) && Live(table[..]) == old(Live(table[..]))
    {
      var newTable := new Slot[physicalSize * 2](_ => Empty);
      ghost var slots := table[..];
      assert newTable[..] == seq(2 * physicalSize, _ => Empty);
      var i := 0;
      while i < physicalSize
        invariant 0 <= i <= physicalSize && newTable.Length == 2 * physicalSize
        invariant unchanged(this) && table[..] == slots && fresh(newTable)
        invariant RehashFrom(slots, i, newTable[..]) == Rehash(slots, 2 * physicalSize)
      {
        if table[i] != Empty && table[i] != Gravestone {
          var newPos := Hash(newTable, table[i].handle);
          newTable[newPos] := table[i];
        }
        i := i + 1;
      }
      RehashSpec(slots, 2 * physicalSize);
      physicalSize := physicalSize * 2;
      table := newTable;
    }

    /**
     * insert: expands first when one more handle would pass half the
     * size, then places the handle in the first empty slot on its probe
     * sequence; false, with nothing placed, when the probe finds none.
     */
    method Insert(handle: Handle) returns (ok: bool)
      requires Valid() && CanInsert() && GetStringAt(handle).Some?
      modifies this, table
      ensures Valid() && (table == old(table) || fresh(table))
      ensures physicalSize == if old(Grows()) then 2 * old(physicalSize) else old(physicalSize)
      ensures ok == (Probe(old(BeforeProbe()), Home(GetStringAt(handle).value, physicalSize)) != -1)
      ensures ok ==>
        table[..] == old(BeforeProbe())[Probe(old(BeforeProbe()), Home(GetStringAt(handle).value, physicalSize)) := Full(handle)]
      ensures !ok ==> table[..] == old(BeforeProbe())
      ensures Live(table[..]) == old(Live(table[..])) + (if ok then multiset{handle} else multiset{})
      ensures logicalSize == old(logicalSize) + (if ok then 1 else 0)
    {
      ghost var before := BeforeProbe();
      ghost var name := GetStringAt(handle).value;
      if logicalSize + 1 > physicalSize / 2 {
        ExpandTable();
      }
      assert table[..] == before;
      var pos := Hash(table, handle);
      if pos == -1 {
        return false;
      }
      ProbeSpec(before, Home(name, physicalSize));
      PutAt(pos, handle);
      return true;
    }

    /** The store into the empty slot insert's probe found, and the count that goes with it. */
    method PutAt(pos: int, handle: Handle)
      requires Valid() && 0 <= pos < table.Length && table[pos] == Empty && GetStringAt(handle).Some?
      modifies this`logicalSize, table
      ensures Valid() && table[..] == old(table[..])[pos := Full(handle)]
      ensures Live(table[..]) == old(Live(table[..])) + multiset{handle}
      ensures logicalSize == old(logicalSize) + 1
    {
      ghost var before := table[..];
      LiveUpdate(before, pos, Full(handle));
      table[pos] := Full(handle);
      logicalSize := logicalSize + 1;
      assert table[..] == before[pos := Full(handle)];
      assert Live(table[..]) == Live(before) + multiset{handle};
    }

    /**
     * handle.setOffset and handle.setMemory on the handle in slot pos (the
     * relocation in DynamicByteArray.expandMemory): the slot now holds the
     * moved handle and nothing else changes.
     */
    method SetHandle(pos: int, h: Handle)
      requires Valid() && 0 <= pos < table.Length && table[pos].Full? && GetStringAt(h).Some?
      modifies table
      ensures Valid()
      ensures table[..] == old(table[..])[pos := Full(h)]
      ensures Live(table[..]) + multiset{old(table[pos]).handle} == old(Live(table[..])) + multiset{h}
    {
      ghost var before := table[..];
      LiveUpdate(before, pos, Full(h));
      table[pos] := Full(h);
      assert table[..] == before[pos := Full(h)];
      assert |Live(table[..])| + 1 == |Live(before)| + 1 by {
        assert |Live(table[..]) + SlotHandles(before[pos])| == |Live(table[..])| + 1;
        assert |Live(before) + SlotHandles(Full(h))| == |Live(before)| + 1;
      }
    }

    /** The lookup loop shared by search and delete. */
    method ScanTable(t: Target) returns (pos: int)
      requires Valid() && TargetName(t).Some?
      ensures pos == Scan(table[..], t)
    {
      if table.Length == 0 {
        return -1;
      }
      var home := HashHelper(table, TargetName(t).value);
      var m := table.Length;
      var i := 0;
      while i < m
        invariant 0 <= i <= m
        invariant ScanFrom(table[..], home, i, t) == Scan(table[..], t)
      {
        ProbeFitsInt(home, i, m);
        var p := (home + i * i) % m;
        if table[p] == Empty {
          return -1;
        }
        if Matches(table[p], t) {
          return p;
        }
        i := i + 1;
      }
      return -1;
    }

    /**
     * search (not part of HashTable.java; written from its documented
     * behaviour): a handle whose payload is `name`, with its slot, or None.
     */
    method Search(name: seq<Byte>) returns (pos: int, found: Option<Handle>)
      requires Valid()
      ensures pos == Scan(table[..], Content(name))
      ensures found.Some? <==> pos != -1
      ensures found.Some? ==> table[pos] == Full(found.value) && GetStringAt(found.value) == Some(name)
    {
      pos := ScanTable(Content(name));
      if pos == -1 {
        found := None;
      } else {
        found := Some(table[pos].handle);
      }
    }

    /**
     * delete (not part of HashTable.java; written from its documented
     * behaviour): the slot holding a handle equal to `handle` becomes a
     * gravestone and the count drops by one.
     */
    method Delete(handle: Handle) returns (removed: Option<Handle>)
      requires Valid() && GetStringAt(handle).Some?
      modifies table, this
      ensures Valid() && table == old(table) && physicalSize == old(physicalSize)
      ensures table[..] == Deleted(old(table[..]), handle)
      ensures var pos := old(Scan(table[..], SameHandle(handle)));
        if pos == -1 then removed == None && table[..] == old(table[..]) && logicalSize == old(logicalSize)
        else removed == Some(old(table[pos]).handle) && Equals(handle, HandleRef(removed.value)) &&
             table[..] == old(table[..])[pos := Gravestone] &&
             Live(table[..]) == old(Live(table[..])) - multiset{removed.value} &&
             logicalSize == old(logicalSize) - 1
    {
      var pos := ScanTable(SameHandle(handle));
      if pos == -1 {
        return None;
      }
      removed := Some(table[pos].handle);
      ghost var before := table[..];
      LiveUpdate(before, pos, Gravestone);
      table[pos] := Gravestone;
      logicalSize := logicalSize - 1;
      assert table[..] == before[pos := Gravestone];
      assert Live(table[..]) + multiset{removed.value} == Live(before);
    }
  }
}
