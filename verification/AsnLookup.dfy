/** The ASN index: ranges sorted by start, and a binary search for the last start at or below an address. */
module AsnLookup {
  import opened Text
  import opened Sorting

  type uint32 = x: int | 0 <= x < 0x1_0000_0000

  datatype AsnRange = AsnRange(start: uint32, end: uint32, asn: uint32, org: string) {
    predicate Contains(addr: int) {
      start <= addr <= end
    }
  }

  function StartOf(r: AsnRange): int { r.start }

  class Lookup {
    var ranges: seq<AsnRange>
    ghost var loaded: seq<AsnRange>

    /** The ranges are the loaded rows ordered by start; rows of equal start in any order. */
    ghost predicate Valid()
      reads this
    {
      SortedBy(StartOf, ranges) && multiset(ranges) == multiset(loaded)
    }

    /** Load, after parsing: collects the rows and sorts them in place. */
    constructor (rows: seq<AsnRange>)
      ensures Valid() && loaded == rows
    {
      var a := new AsnRange[|rows|](i requires 0 <= i < |rows| => rows[i]);
      assert a[..] == rows;
      SortSlice(a, StartOf);
      ranges := a[..];
      loaded := rows;
    }

    /** The answer is the last range that starts at or below the address, if it reaches the address. */
    method Find(addr: uint32) returns (r: Option<AsnRange>)
      requires Valid()
      ensures r == Candidate(ranges, addr)
    {
      if |ranges| == 0 {
        return None;
      }
      var i := Search(addr);
      CandidateAt(ranges, addr, i);
      if i == 0 {
        return None;
      }
      var candidate := ranges[i - 1];
      if addr > candidate.end {
        return None;
      }
      return Some(candidate);
    }

    /** sort.Search: the first index whose range starts after the address. */
    method Search(addr: uint32) returns (i: nat)
      requires Valid()
      ensures i <= |ranges|
      ensures forall k :: 0 <= k < i ==> ranges[k].start <= addr
      ensures forall k :: i <= k < |ranges| ==> ranges[k].start > addr
    {
      i := 0;
      var j := |ranges|;
      while i < j
        invariant 0 <= i <= j <= |ranges|
        invariant forall k :: 0 <= k < i ==> ranges[k].start <= addr
        invariant forall k :: j <= k < |ranges| ==> ranges[k].start > addr
      {
        var h := (i + j) / 2;
        assert forall k :: 0 <= k < h ==> StartOf(ranges[k]) <= StartOf(ranges[h]);
        assert forall k :: h < k < |ranges| ==> StartOf(ranges[h]) <= StartOf(ranges[k]);
        if ranges[h].start <= addr {
          i := h + 1;
        } else {
          j := h;
        }
      }
    }
  }

  /** Lookup resolves an address to its AS number and organisation; `addr` is None when the text is no
      IPv4 address. A missing table, an empty one and an unparsable address all resolve to nothing. */
  method Resolve(l: Lookup?, addr: Option<uint32>) returns (asn: uint32, org: string, ok: bool)
    requires l != null ==> l.Valid()
    ensures ok <==> l != null && addr.Some? && Candidate(l.ranges, addr.value).Some?
    ensures if ok then var r := Candidate(l.ranges, addr.value).value; asn == r.asn && org == r.org
            else asn == 0 && org == ""
  {
    if l == null || |l.ranges| == 0 {
      return 0, "", false;
    }
    if addr.None? {
      return 0, "", false;
    }
    var r := l.Find(addr.value);
    if r.None? {
      return 0, "", false;
    }
    return r.value.asn, r.value.org, true;
  }

  /** Scanning from the end: the last range whose start is not above the address, tested against its end. */
  function Candidate(ranges: seq<AsnRange>, addr: int): Option<AsnRange> {
    if ranges == [] then None
    else
      var last := ranges[|ranges| - 1];
      if last.start > addr then Candidate(ranges[..|ranges| - 1], addr)
      else if addr <= last.end then Some(last) else None
  }

  lemma {:induction false} CandidateAt(ranges: seq<AsnRange>, addr: int, i: nat)
    requires i <= |ranges|
    requires forall k :: 0 <= k < i ==> ranges[k].start <= addr
    requires forall k :: i <= k < |ranges| ==> ranges[k].start > addr
    ensures Candidate(ranges, addr) == if i == 0 || addr > ranges[i - 1].end then None else Some(ranges[i - 1])
    decreases |ranges|
  {
    if i < |ranges| {
      CandidateAt(ranges[..|ranges| - 1], addr, i);
    }
  }

  // ----- against a linear scan over the unsorted rows

  function LinearScan(rows: seq<AsnRange>, addr: int): Option<AsnRange> {
    if rows == [] then None
    else if rows[0].Contains(addr) then Some(rows[0])
    else LinearScan(rows[1..], addr)
  }

  lemma {:induction false} ScanFinds(rows: seq<AsnRange>, addr: int)
    ensures LinearScan(rows, addr).Some? ==>
              LinearScan(rows, addr).value in rows && LinearScan(rows, addr).value.Contains(addr)
    ensures LinearScan(rows, addr).None? ==> forall r :: r in rows ==> !r.Contains(addr)
  {
    if rows != [] {
      ScanFinds(rows[1..], addr);
      assert rows == [rows[0]] + rows[1..];
    }
  }

  /** Whatever the table, a successful lookup is a loaded row that contains the address. */
  lemma {:induction false} CandidateContains(ranges: seq<AsnRange>, addr: int)
    ensures Candidate(ranges, addr).Some? ==>
              Candidate(ranges, addr).value in ranges && Candidate(ranges, addr).value.Contains(addr)
    decreases |ranges|
  {
    if ranges != [] {
      CandidateContains(ranges[..|ranges| - 1], addr);
    }
  }

  /** No two rows share an address; rows may be empty (end below start). */
  ghost predicate Disjoint(rows: seq<AsnRange>) {
    forall i, j, addr: int :: 0 <= i < j < |rows| && rows[i].Contains(addr) ==> !rows[j].Contains(addr)
  }

  ghost predicate NonEmpty(rows: seq<AsnRange>) {
    forall r :: r in rows ==> r.start <= r.end
  }

  /** Some address of range `i` lies after range `j`'s end and before the next start, so that the search
      stops at range `j` and misses it. */
  ghost predicate Shadows(ranges: seq<AsnRange>, i: nat, j: nat, addr: int) {
    && i < j < |ranges| && ranges[i].Contains(addr)
    && ranges[j].start <= addr && ranges[j].end < addr && (j + 1 < |ranges| ==> addr < ranges[j + 1].start)
  }

  /** For one address: the search succeeds exactly when some range contains it, if and only if the
      address is not shadowed. */
  lemma SearchCompleteIff(ranges: seq<AsnRange>, addr: int)
    requires SortedBy(StartOf, ranges)
    ensures (Candidate(ranges, addr).Some? <==> exists r :: r in ranges && r.Contains(addr))
              <==> !(exists i: nat, j: nat :: Shadows(ranges, i, j, addr))
  {
    if i: nat, j: nat :| Shadows(ranges, i, j, addr) {
      ShadowedMisses(ranges, addr, i, j);
      assert ranges[i] in ranges && ranges[i].Contains(addr);
    } else {
      CandidateContains(ranges, addr);
      forall r | r in ranges && r.Contains(addr) ensures Candidate(ranges, addr).Some? {
        var i :| 0 <= i < |ranges| && ranges[i] == r;
        var k := Split(ranges, addr);
        CandidateAt(ranges, addr, k);
        assert addr <= ranges[k - 1].end || Shadows(ranges, i, k - 1, addr);
      }
    }
  }

  lemma ShadowedMisses(ranges: seq<AsnRange>, addr: int, i: nat, j: nat)
    requires SortedBy(StartOf, ranges) && Shadows(ranges, i, j, addr)
    ensures Candidate(ranges, addr).None?
  {
    assert forall l :: 0 <= l < j ==> StartOf(ranges[l]) <= StartOf(ranges[j]);
    assert j + 1 < |ranges| ==> forall l :: j + 1 < l < |ranges| ==> StartOf(ranges[j + 1]) <= StartOf(ranges[l]);
    CandidateAt(ranges, addr, j + 1);
  }

  /** The search misses an address of range `i` because of the later range `j`: some address lies past
      both the start and the end of `j`, inside `i`, and before the next start. Only the rows' bounds
      count. */
  predicate Hides(ranges: seq<AsnRange>, i: nat, j: nat) {
    && i < j < |ranges|
    && var first := FirstPast(ranges[j]);
       first <= ranges[i].end && (j + 1 < |ranges| ==> first < ranges[j + 1].start)
  }

  /** The least address from the start of the range on that is not in it. */
  function FirstPast(r: AsnRange): int {
    if r.end < r.start then r.start else r.end + 1
  }

  ghost predicate Covered(ranges: seq<AsnRange>, addr: int) {
    exists r :: r in ranges && r.Contains(addr)
  }

  ghost predicate HidesSome(ranges: seq<AsnRange>) {
    exists i: nat, j: nat :: Hides(ranges, i, j)
  }

  /** The search finds every covered address of the table if and only if no range hides a part of an
      earlier one. */
  lemma TableCompleteIff(ranges: seq<AsnRange>)
    requires SortedBy(StartOf, ranges)
    ensures (forall addr: uint32 :: Candidate(ranges, addr).Some? <==> Covered(ranges, addr)) <==> !HidesSome(ranges)
  {
    if i: nat, j: nat :| Hides(ranges, i, j) {
      var addr := FirstPast(ranges[j]);
      assert StartOf(ranges[i]) <= StartOf(ranges[j]);
      assert Shadows(ranges, i, j, addr);
      SearchCompleteIff(ranges, addr);
      assert 0 <= addr <= ranges[i].end;
      var missed: uint32 := addr;
      assert !(Candidate(ranges, missed).Some? <==> Covered(ranges, missed));
    } else {
      forall addr: uint32 ensures Candidate(ranges, addr).Some? <==> Covered(ranges, addr) {
        SearchCompleteIff(ranges, addr);
        ShadowedIsHidden(ranges, addr);
      }
    }
  }

  lemma ShadowedIsHidden(ranges: seq<AsnRange>, addr: int)
    ensures (exists i: nat, j: nat :: Shadows(ranges, i, j, addr)) ==> HidesSome(ranges)
  {
    if i: nat, j: nat :| Shadows(ranges, i, j, addr) {
      assert Hides(ranges, i, j);
    }
  }

  /** Two nested ranges: address 50 is inside the first, and the search, stopped by the second, misses it. */
  lemma NestedRangeHides()
    ensures var ranges := [AsnRange(0, 100, 1, "outer"), AsnRange(10, 20, 2, "inner")];
            SortedBy(StartOf, ranges) && ranges[0].Contains(50) && Candidate(ranges, 50).None?
  {}

  lemma {:induction false} Split(ranges: seq<AsnRange>, addr: int) returns (k: nat)
    requires SortedBy(StartOf, ranges)
    ensures k <= |ranges|
    ensures forall l :: 0 <= l < k ==> ranges[l].start <= addr
    ensures forall l :: k <= l < |ranges| ==> ranges[l].start > addr
  {
    k := 0;
    while k < |ranges| && ranges[k].start <= addr
      invariant k <= |ranges| && forall l :: 0 <= l < k ==> ranges[l].start <= addr
    {
      k := k + 1;
    }
    if k < |ranges| {
      assert forall l :: k < l < |ranges| ==> StartOf(ranges[k]) <= StartOf(ranges[l]);
    }
  }

  /** Pairwise disjoint, non-empty rows: the search gives the very row a linear scan over the unsorted
      table gives, for every address. */
  lemma SearchIsScan(rows: seq<AsnRange>, ranges: seq<AsnRange>, addr: int)
    requires SortedBy(StartOf, ranges) && multiset(ranges) == multiset(rows)
    requires Disjoint(rows) && NonEmpty(rows)
    ensures Candidate(ranges, addr) == LinearScan(rows, addr)
  {
    SameElements(ranges, rows);
    CandidateContains(ranges, addr);
    ScanFinds(rows, addr);
    if LinearScan(rows, addr).Some? {
      SearchFinds(rows, ranges, LinearScan(rows, addr).value, addr);
    }
  }

  lemma SearchFinds(rows: seq<AsnRange>, ranges: seq<AsnRange>, r: AsnRange, addr: int)
    requires SortedBy(StartOf, ranges) && forall s :: s in ranges ==> s in rows
    requires Disjoint(rows) && NonEmpty(rows)
    requires r in ranges && r.Contains(addr)
    ensures Candidate(ranges, addr) == Some(r)
  {
    var k := Split(ranges, addr);
    CandidateAt(ranges, addr, k);
    var last := LastStart(ranges, r, addr, k);
    // the last start at or below the address lies inside r, so it is r's own
    SameRow(rows, r, last, last.start);
  }

  lemma LastStart(ranges: seq<AsnRange>, r: AsnRange, addr: int, k: nat) returns (last: AsnRange)
    requires SortedBy(StartOf, ranges) && k <= |ranges|
    requires forall l :: k <= l < |ranges| ==> ranges[l].start > addr
    requires r in ranges && r.start <= addr
    ensures k > 0 && last == ranges[k - 1] && r.start <= last.start
  {
    var i :| 0 <= i < |ranges| && ranges[i] == r;
    last := ranges[k - 1];
    assert i < k - 1 ==> StartOf(ranges[i]) <= StartOf(ranges[k - 1]);
  }

  lemma SameRow(rows: seq<AsnRange>, r: AsnRange, s: AsnRange, addr: int)
    requires Disjoint(rows) && r in rows && s in rows && r.Contains(addr) && s.Contains(addr)
    ensures r == s
  {
    var i :| 0 <= i < |rows| && rows[i] == r;
    var j :| 0 <= j < |rows| && rows[j] == s;
    assert i == j;
  }
}
