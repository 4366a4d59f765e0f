/** The ARP cache: a fixed array filled from the front, scanned until the first unused entry. */
module ArpCaches {
  import opened Words

  datatype CacheEntry = CacheEntry(mac: seq<byte>, ip: Addr, valid: bool, entryTime: real)

  const ARP_CACHE_TIME_LIMIT: real := 15.0
  const CACHE_SIZE: nat := 100
  const NO_MAC: seq<byte> := [0, 0, 0, 0, 0, 0]
  const EMPTY: CacheEntry := CacheEntry(NO_MAC, 0, false, 0.0)

  /** The scan goes on past such an entry. */
  predicate Occupied(e: CacheEntry) { e.ip != 0 && e.valid }

  function Age(e: CacheEntry, now: real): real { now - e.entryTime }

  predicate Hit(e: CacheEntry, ip: Addr, now: real) { e.ip == ip && Age(e, now) < ARP_CACHE_TIME_LIMIT }

  /** The scan from entry `j`: the first hit, looking at one entry beyond the occupied ones. */
  function Scan(c: seq<CacheEntry>, ip: Addr, now: real, j: nat): seq<byte>
    decreases |c| - j
  {
    if j >= |c| then NO_MAC
    else if Hit(c[j], ip, now) then c[j].mac
    else if Occupied(c[j]) then Scan(c, ip, now, j + 1)
    else NO_MAC
  }

  function MacFor(c: seq<CacheEntry>, ip: Addr, now: real): seq<byte> {
    if c == [] || !Occupied(c[0]) then NO_MAC else Scan(c, ip, now, 0)
  }

  /** A first octet of 0 means "not found". */
  predicate Found(mac: seq<byte>) { mac != [] && mac[0] != 0 }

  // ----- scanning on behalf of an ARP packet ---------------------------------------------

  function Restarted(e: CacheEntry, now: real): CacheEntry {
    if Age(e, now) > ARP_CACHE_TIME_LIMIT then e.(entryTime := now) else e
  }

  /** The same scan when it restarts the clock of every expired entry it visits. */
  function Refresh(c: seq<CacheEntry>, ip: Addr, now: real, j: nat): (r: seq<CacheEntry>)
    ensures |r| == |c|
    decreases |c| - j
  {
    if j >= |c| then c
    else
      var d := c[j := Restarted(c[j], now)];
      if Hit(c[j], ip, now) || !Occupied(c[j]) then d else Refresh(d, ip, now, j + 1)
  }

  function AfterLookup(c: seq<CacheEntry>, ip: Addr, now: real, forArp: bool): (r: seq<CacheEntry>)
    ensures |r| == |c|
  {
    if forArp && c != [] && Occupied(c[0]) then Refresh(c, ip, now, 0) else c
  }

  /** The cache after a hardware address has been heard: a new entry unless the lookup finds one. */
  function Learn(c: seq<CacheEntry>, free: nat, ip: Addr, mac: seq<byte>, now: real, forArp: bool): (r: seq<CacheEntry>)
    requires free < |c|
    ensures |r| == |c|
  {
    var d := AfterLookup(c, ip, now, forArp);
    if Found(MacFor(c, ip, now)) then d else d[free := CacheEntry(mac, ip, true, now)]
  }

  /** The first `free` entries are in use, the others are not. */
  ghost predicate FilledTo(c: seq<CacheEntry>, free: nat) {
    && free <= |c| && (forall i :: 0 <= i < free ==> c[i].valid)
    && (forall i :: free <= i < |c| ==> !c[i].valid && c[i].ip == 0 && c[i].mac == NO_MAC)
  }

  /** No scan sees past entry `z`: the first one that is unused or stands for address 0. */
  ghost predicate VisibleTo(c: seq<CacheEntry>, z: nat) {
    z < |c| && c[z].ip == 0 && forall i :: 0 <= i < z ==> Occupied(c[i])
  }

  /** The scan for `ip` stops at entry `q`: the first hit, or `z` when there is none. */
  ghost predicate StopsAtEntry(c: seq<CacheEntry>, z: nat, ip: Addr, now: real, q: nat) {
    q <= z < |c| && (q < z ==> Hit(c[q], ip, now)) && forall i :: 0 <= i < q ==> !Hit(c[i], ip, now)
  }

  ghost predicate MacsSix(c: seq<CacheEntry>) {
    forall i :: 0 <= i < |c| ==> |c[i].mac| == 6
  }

  lemma {:induction false} ScanLength(c: seq<CacheEntry>, ip: Addr, now: real, j: nat)
    requires MacsSix(c)
    ensures |Scan(c, ip, now, j)| == 6
    decreases |c| - j
  {
    hide Hit, Occupied;
    if j < |c| { ScanLength(c, ip, now, j + 1); }
  }

  lemma MacForLength(c: seq<CacheEntry>, ip: Addr, now: real)
    requires MacsSix(c)
    ensures |MacFor(c, ip, now)| == 6
  {
    ScanLength(c, ip, now, 0);
  }

  /** Past occupied entries that are no hits, the answer is the one at entry `p`. */
  lemma {:induction false} ScanReaches(c: seq<CacheEntry>, ip: Addr, now: real, j: nat, p: nat)
    requires j <= p < |c|
    requires forall i :: j <= i < p ==> Occupied(c[i]) && !Hit(c[i], ip, now)
    ensures Scan(c, ip, now, j) == if Hit(c[p], ip, now) then c[p].mac else Scan(c, ip, now, p)
    decreases p - j
  {
    hide Hit, Occupied;
    if j < p { ScanReaches(c, ip, now, j + 1, p); }
  }

  lemma {:induction false} RefreshBelow(c: seq<CacheEntry>, ip: Addr, now: real, j: nat)
    ensures var r := Refresh(c, ip, now, j);
      && (forall i :: 0 <= i < |c| && i < j ==> r[i] == c[i])
      && (forall i :: 0 <= i < |c| ==> r[i] == c[i] || r[i] == Restarted(c[i], now))
    decreases |c| - j
  {
    hide Hit, Restarted, Occupied;
    if j < |c| { RefreshBelow(c[j := Restarted(c[j], now)], ip, now, j + 1); }
  }

  // ----- what an ARP packet does to the answers ------------------------------------------

  /** After an ARP packet whose scan stops at `q`, entry `i` is a hit for `ip`: it was one, or is restarted. */
  predicate HitAfter(c: seq<CacheEntry>, q: nat, ip: Addr, now: real, i: nat)
    requires i < |c|
  {
    c[i].ip == ip && (Age(c[i], now) < ARP_CACHE_TIME_LIMIT || (i <= q && Age(c[i], now) > ARP_CACHE_TIME_LIMIT))
  }

  /** Entry `p` is the first visible hit after the packet; `p` is `z` when there is none. */
  ghost predicate FirstAfter(c: seq<CacheEntry>, z: nat, q: nat, ip: Addr, now: real, p: nat) {
    p <= z < |c| && (p < z ==> HitAfter(c, q, ip, now, p)) && forall i :: 0 <= i < p ==> !HitAfter(c, q, ip, now, i)
  }

  lemma ScanStops(c: seq<CacheEntry>, z: nat, ip: Addr, now: real, q: nat)
    requires VisibleTo(c, z) && StopsAtEntry(c, z, ip, now, q) && ip != 0
    ensures MacFor(c, ip, now) == if q < z then c[q].mac else NO_MAC
  {
    ScanReaches(c, ip, now, 0, q);
  }

  /** The cache after the scan: entries up to `q` are restarted if expired, the others are what they were. */
  lemma AfterLookupIs(c: seq<CacheEntry>, z: nat, ip: Addr, now: real, q: nat)
    requires VisibleTo(c, z) && StopsAtEntry(c, z, ip, now, q)
    ensures var d := AfterLookup(c, ip, now, true);
      forall i :: 0 <= i < |c| ==> d[i] == if i <= q && z > 0 then Restarted(c[i], now) else c[i]
  {
    if z > 0 { RefreshIs(c, ip, now, 0, q); }
  }

  lemma {:induction false} RefreshIs(c: seq<CacheEntry>, ip: Addr, now: real, j: nat, q: nat)
    requires j <= q < |c| && (Hit(c[q], ip, now) || !Occupied(c[q]))
    requires forall i :: j <= i < q ==> Occupied(c[i]) && !Hit(c[i], ip, now)
    ensures var r := Refresh(c, ip, now, j);
      forall i :: 0 <= i < |c| ==> r[i] == if j <= i <= q then Restarted(c[i], now) else c[i]
    decreases q - j
  {
    hide Hit, Restarted, Occupied;
    if j < q { RefreshIs(c[j := Restarted(c[j], now)], ip, now, j + 1, q); }
  }

  /**
    The answer for any address, known or new, after an ARP packet from `ip`: the first entry that is
    fresh, or that is expired and lies where the scan for `ip` passes; the address just heard only
    when there is none, it is the sender's, and nothing hides the new entry. The scan for a probe,
    whose sender address is 0, passes every visible entry: there `q` is `z`.
  */
  lemma AnswerAfterArp(c: seq<CacheEntry>, free: nat, z: nat, ip: Addr, mac: seq<byte>, now: real, q: nat,
                       other: Addr, p: nat)
    requires FilledTo(c, free) && free < |c| && VisibleTo(c, z) && other != 0
    requires StopsAtEntry(c, z, ip, now, q) && FirstAfter(c, z, q, other, now, p)
    ensures MacFor(Learn(c, free, ip, mac, now, true), other, now)
         == if p < z then c[p].mac else if z == free && other == ip then mac else NO_MAC
  {
    var d := Learn(c, free, ip, mac, now, true);
    assert !Occupied(c[free]);
    if ip != 0 { ScanStops(c, z, ip, now, q); }
    AfterLookupIs(c, z, ip, now, q);
    hide AfterLookup, MacFor, Learn;
    forall i | 0 <= i < p ensures Occupied(d[i]) && !Hit(d[i], other, now) {
      assert !HitAfter(c, q, other, now, i);
    }
    AnswerAt(c, d, free, z, other, now, p);
  }

  lemma AnswerAt(c: seq<CacheEntry>, d: seq<CacheEntry>, free: nat, z: nat, other: Addr, now: real, p: nat)
    requires FilledTo(c, free) && free < |c| == |d| && VisibleTo(c, z) && other != 0 && p <= z <= free
    requires forall i :: 0 <= i < p ==> Occupied(d[i]) && !Hit(d[i], other, now)
    requires !Occupied(d[p]) ==> !Hit(d[p], other, now)
    ensures MacFor(d, other, now) == Scan(d, other, now, p)
  {
    ScanReaches(d, other, now, 0, p);
  }

  // ----- in seconds ----------------------------------------------------------------------

  /** Entry `i` answers for `ip`: it was made or restarted less than 15 seconds ago. */
  ghost predicate AnswersFor(c: seq<CacheEntry>, ip: Addr, now: real, i: nat) {
    i < |c| && c[i].ip == ip && now - c[i].entryTime < 15.0
  }

  /** The lookup, exactly: the first visible entry for the address that is under 15 seconds old, else six zeros. */
  lemma LookupExactly(c: seq<CacheEntry>, z: nat, ip: Addr, now: real, q: nat)
    requires VisibleTo(c, z) && ip != 0 && q <= z && forall i :: 0 <= i < q ==> !AnswersFor(c, ip, now, i)
    ensures q < z && AnswersFor(c, ip, now, q) ==> MacFor(c, ip, now) == c[q].mac
    ensures q == z ==> MacFor(c, ip, now) == [0, 0, 0, 0, 0, 0]
  {
    forall i | 0 <= i < q ensures !Hit(c[i], ip, now) { assert !AnswersFor(c, ip, now, i); }
    if q == z || AnswersFor(c, ip, now, q) { ScanStops(c, z, ip, now, q); }
  }

  /**
    What hearing `mac` for `ip` does to the cache, exactly. The lookup ends at entry `q`; it finds
    nothing when that is no answer or one that starts with octet 0, and then `ip` gets the first
    unused entry. On behalf of an ARP packet every entry up to `q` older than 15 seconds is restarted.
  */
  lemma LearnExactly(c: seq<CacheEntry>, free: nat, z: nat, ip: Addr, mac: seq<byte>, now: real, forArp: bool,
                     q: nat, i: nat)
    requires FilledTo(c, free) && free < |c| && VisibleTo(c, z) && ip != 0 && i < |c|
    requires q <= z && (q < z ==> AnswersFor(c, ip, now, q)) && forall j :: 0 <= j < q ==> !AnswersFor(c, ip, now, j)
    ensures Learn(c, free, ip, mac, now, forArp)[i]
         == if i == free && !(q < z && c[q].mac != [] && c[q].mac[0] != 0) then CacheEntry(mac, ip, true, now)
            else if forArp && z > 0 && i <= q && now - c[i].entryTime > 15.0 then c[i].(entryTime := now)
            else c[i]
  {
    forall j | 0 <= j < q ensures !Hit(c[j], ip, now) { assert !AnswersFor(c, ip, now, j); }
    assert !Occupied(c[free]);
    ScanStops(c, z, ip, now, q);
    AfterLookupIs(c, z, ip, now, q);
  }

  lemma {:induction false} StopExists(c: seq<CacheEntry>, z: nat, ip: Addr, now: real, j: nat) returns (q: nat)
    requires j <= z < |c| && forall i :: 0 <= i < j ==> !Hit(c[i], ip, now)
    ensures StopsAtEntry(c, z, ip, now, q)
    decreases z - j
  {
    hide Hit;
    if j == z || Hit(c[j], ip, now) {
      q := j;
    } else {
      q := StopExists(c, z, ip, now, j + 1);
    }
  }

  /** Entry `p` is the first visible one for `ip` that is not exactly 15 seconds old; `z` when there is none. */
  ghost predicate FirstLearned(c: seq<CacheEntry>, z: nat, ip: Addr, now: real, p: nat) {
    && p <= z < |c|
    && (p < z ==> c[p].ip == ip && Age(c[p], now) != ARP_CACHE_TIME_LIMIT)
    && (forall i :: 0 <= i < p ==> c[i].ip != ip || Age(c[i], now) == ARP_CACHE_TIME_LIMIT)
  }

  /**
    The sender itself: after its ARP packet the cache answers with the address learned first. An
    expired entry is restarted and shadows the address just heard.
  */
  lemma FirstLearnedWins(c: seq<CacheEntry>, free: nat, z: nat, ip: Addr, mac: seq<byte>, now: real, p: nat)
    requires FilledTo(c, free) && free < |c| && VisibleTo(c, z) && ip != 0
    requires FirstLearned(c, z, ip, now, p)
    ensures MacFor(Learn(c, free, ip, mac, now, true), ip, now)
         == if p < z then c[p].mac else if z == free then mac else NO_MAC
  {
    var q := StopExists(c, z, ip, now, 0);
    AnswerAfterArp(c, free, z, ip, mac, now, q, ip, p);
  }

  /**
    The 15-second limit is not strict, exactly: an address that is no longer answered for is answered
    for again after an ARP packet from another one if and only if its first expired entry lies in
    front of the one that ends the scan for the sender.
  */
  lemma ExpiredComesBackExactly(c: seq<CacheEntry>, free: nat, z: nat, ip: Addr, mac: seq<byte>, now: real, q: nat,
                                other: Addr, p: nat)
    requires FilledTo(c, free) && free < |c| && VisibleTo(c, z) && other != 0 && ip != other
    requires StopsAtEntry(c, z, ip, now, q)
    requires forall i :: 0 <= i < z ==> !Hit(c[i], other, now)
    requires p <= z && (p < z ==> c[p].ip == other && Age(c[p], now) > ARP_CACHE_TIME_LIMIT)
    requires forall i :: 0 <= i < p ==> c[i].ip != other || Age(c[i], now) == ARP_CACHE_TIME_LIMIT
    ensures MacFor(c, other, now) == NO_MAC
    ensures MacFor(Learn(c, free, ip, mac, now, true), other, now) == if p < q then c[p].mac else NO_MAC
  {
    ScanStops(c, z, other, now, z);
    AnswerAfterArp(c, free, z, ip, mac, now, q, other, if p < q then p else z);
  }

  lemma NothingFor0(c: seq<CacheEntry>, z: nat, now: real)
    requires VisibleTo(c, z)
    ensures StopsAtEntry(c, z, 0, now, z)
  {
  }

  /**
    A probe, whose sender address is 0, brings back every visible expired entry that no fresh one
    for the same address precedes.
  */
  lemma ProbeRestartsAll(c: seq<CacheEntry>, free: nat, z: nat, mac: seq<byte>, now: real, other: Addr, p: nat)
    requires FilledTo(c, free) && free < |c| && VisibleTo(c, z) && other != 0
    requires FirstLearned(c, z, other, now, p)
    ensures MacFor(Learn(c, free, 0, mac, now, true), other, now) == if p < z then c[p].mac else NO_MAC
  {
    NothingFor0(c, z, now);
    AnswerAfterArp(c, free, z, 0, mac, now, z, other, p);
  }

  /** The probe itself is cached, and hides every entry behind it. */
  lemma ProbeIsCached(c: seq<CacheEntry>, free: nat, z: nat, mac: seq<byte>, now: real)
    requires FilledTo(c, free) && free < |c| && VisibleTo(c, z) && (z < free ==> !Found(c[z].mac))
    ensures Learn(c, free, 0, mac, now, true)[free] == CacheEntry(mac, 0, true, now)
    ensures VisibleTo(Learn(c, free, 0, mac, now, true), z)
  {
    var d := Learn(c, free, 0, mac, now, true);
    assert !Occupied(c[free]);
    NothingFor0(c, z, now);
    AfterLookupIs(c, z, 0, now, z);
    ScanReaches(c, 0, now, 0, z);
    hide AfterLookup;
    assert !Found(MacFor(c, 0, now));
  }

  /**
    An address heard for the first time can be looked up afterwards exactly when no entry for
    address 0 lies in front of it.
  */
  lemma NewAddressIsVisibleExactly(c: seq<CacheEntry>, free: nat, ip: Addr, mac: seq<byte>, now: real, forArp: bool)
    requires FilledTo(c, free) && free < |c| && ip != 0 && Found(mac)
    requires forall i :: 0 <= i < free ==> c[i].ip != ip
    ensures MacFor(Learn(c, free, ip, mac, now, forArp), ip, now) == mac
       <==> forall i :: 0 <= i < free ==> c[i].ip != 0
  {
    var d := Learn(c, free, ip, mac, now, forArp);
    RefreshBelow(c, ip, now, 0);
    NeverHit(c, ip, now, 0);
    if forall i :: 0 <= i < free ==> c[i].ip != 0 {
      ScanReaches(d, ip, now, 0, free);
    } else {
      var z :| 0 <= z < free && c[z].ip == 0;
      StopsAt(d, ip, now, 0, z);
    }
  }

  lemma {:induction false} NeverHit(c: seq<CacheEntry>, ip: Addr, now: real, j: nat)
    requires forall i :: 0 <= i < |c| ==> c[i].ip != ip
    ensures Scan(c, ip, now, j) == NO_MAC
    decreases |c| - j
  {
    if j < |c| { NeverHit(c, ip, now, j + 1); }
  }

  lemma {:induction false} StopsAt(c: seq<CacheEntry>, ip: Addr, now: real, j: nat, z: nat)
    requires j <= z < |c| && !Occupied(c[z]) && (forall i :: 0 <= i <= z ==> c[i].ip != ip)
    ensures Scan(c, ip, now, j) == NO_MAC
    decreases z - j
  {
    if j < z { StopsAt(c, ip, now, j + 1, z); }
  }

  /** An address heard in a link-state packet changes no other address's answer. */
  lemma LearnKeepsOthers(c: seq<CacheEntry>, free: nat, ip: Addr, mac: seq<byte>, now: real, other: Addr, later: real)
    requires FilledTo(c, free) && free < |c| && other != 0 && other != ip && ip != 0
    ensures MacFor(Learn(c, free, ip, mac, now, false), other, later) == MacFor(c, other, later)
  {
    var d := Learn(c, free, ip, mac, now, false);
    if d != c { OthersScan(c, d, free, other, later, 0); }
  }

  lemma {:induction false} OthersScan(c: seq<CacheEntry>, d: seq<CacheEntry>, free: nat,
                                       other: Addr, later: real, j: nat)
    requires FilledTo(c, free) && free < |c| == |d| && d == c[free := d[free]] && d[free].ip != other && other != 0
    ensures j <= free ==> Scan(d, other, later, j) == Scan(c, other, later, j)
    decreases |c| - j
  {
    if j < free {
      OthersScan(c, d, free, other, later, j + 1);
    } else if j == free {
      assert free + 1 < |d| ==> d[free + 1].ip == 0 && !d[free + 1].valid;
    }
  }

  /** The smallest case: an ARP packet from one address brings back the expired entry of another. */
  lemma ExpiryIsNotStrict()
    ensures var e := CacheEntry([2, 0, 0, 0, 0, 1], 7, true, 0.0);
      var c := [e, EMPTY, EMPTY];
      && !Found(MacFor(c, 7, 60.0))
      && MacFor(Learn(c, 1, 9, [2, 0, 0, 0, 0, 2], 60.0, true), 7, 60.0) == e.mac
  {
    var e := CacheEntry([2, 0, 0, 0, 0, 1], 7, true, 0.0);
    var c := [e, EMPTY, EMPTY];
    ExpiredComesBackExactly(c, 1, 1, 9, [2, 0, 0, 0, 0, 2], 60.0, 1, 7, 0);
  }

  /** Only entry times differ. */
  ghost predicate SameButTimes(c: seq<CacheEntry>, d: seq<CacheEntry>) {
    |c| == |d| && forall i :: 0 <= i < |c| ==> c[i] == d[i].(entryTime := c[i].entryTime)
  }

  /** What is left to scan from entry `j` decides the answer and the cache for `c`. */
  ghost predicate ScanAgrees(c: seq<CacheEntry>, d: seq<CacheEntry>, ip: Addr, now: real, forArp: bool, j: nat) {
    && MacFor(c, ip, now) == Scan(c, ip, now, j)
    && AfterLookup(c, ip, now, forArp) == if forArp then Refresh(d, ip, now, j) else d
  }

  // ----- the cache -----------------------------------------------------------------------

  class ArpCache {
    const entries: array<CacheEntry>
    var freePos: nat

    ghost predicate Valid()
      reads this, entries
    {
      entries.Length == CACHE_SIZE && FilledTo(entries[..], freePos) && MacsSix(entries[..])
    }

    /** The scan has no bound of its own: an unused entry has to end it, and a new entry needs its place. */
    predicate HasRoom()
      reads this
    {
      freePos < CACHE_SIZE
    }

    constructor ()
      ensures Valid() && fresh(entries) && freePos == 0 && entries.Length == 100
    {
      entries := new CacheEntry[CACHE_SIZE](_ => EMPTY);
      freePos := 0;
    }

    /** `mode` 1 restarts the clocks of expired entries; it is used for ARP packets only. */
    method DoesMacAddressExist(ip: Addr, mode: nat, now: real) returns (mac: seq<byte>)
      requires Valid() && HasRoom()
      modifies if mode == 1 then {entries} else {}
      ensures Valid() && mac == MacFor(old(entries[..]), ip, now) && |mac| == 6
      ensures entries[..] == AfterLookup(old(entries[..]), ip, now, mode == 1)
    {
      hide Hit, Age, Found;
      ghost var c := entries[..];
      MacForLength(c, ip, now);
      mac := NO_MAC;
      var j := 0;
      var cachedValue := entries[j];
      while Occupied(cachedValue)
        invariant 0 <= j <= freePos + 1 && (j == freePos + 1 ==> !Occupied(cachedValue))
        invariant j == 0 ==> cachedValue == c[0]
        invariant mac == NO_MAC && Occupied(c[0]) == (j > 0 || Occupied(cachedValue))
        invariant entries[j..] == c[j..] && SameButTimes(entries[..], c)
        invariant if Occupied(cachedValue) then ScanAgrees(c, entries[..], ip, now, mode == 1, j)
                  else MacFor(c, ip, now) == NO_MAC && entries[..] == AfterLookup(c, ip, now, mode == 1)
        decreases freePos + 1 - j
      {
        cachedValue := entries[j];
        ghost var was := entries[..];
        assert cachedValue == c[j];
        if mode == 1 && Age(cachedValue, now) > ARP_CACHE_TIME_LIMIT {
          entries[j] := entries[j].(entryTime := now);
        }
        assert entries[..] == if mode == 1 then was[j := Restarted(c[j], now)] else was;
        if Hit(cachedValue, ip, now) {
          mac := cachedValue.mac;
          break;
        }
        j := j + 1;
      }
    }

    /** What hearing `mac` for `ip` does, from an ARP packet (`mode` 1) or a link-state packet (`mode` 2). */
    method CacheMacAddress(ip: Addr, mac: seq<byte>, mode: nat, now: real)
      requires Valid() && HasRoom() && |mac| == 6
      modifies this`freePos, entries
      ensures Valid() && entries[..] == Learn(old(entries[..]), old(freePos), ip, mac, now, mode == 1)
      ensures freePos == old(freePos) + if Found(MacFor(old(entries[..]), ip, now)) then 0 else 1
    {
      hide Hit, Age, Occupied, Refresh, AfterLookup;
      var existing := DoesMacAddressExist(ip, mode, now);
      if Found(existing) { return; }
      entries[freePos] := CacheEntry(mac, ip, true, now);
      freePos := freePos + 1;
    }
  }
}
