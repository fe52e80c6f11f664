/** The routing table of lookup.cpp: an ordered vector of entries keyed by
    (addr, len), with upsert/delete and a longest-prefix query whose ties go
    to the earliest entry. Matching masks the LOW-order len bits of the raw
    address integer, exactly as lookup.cpp does. */
module Lookup {
  import opened Bytes

  /** RoutingTableEntry: addr and nexthop are raw network-order addresses,
      treated as opaque 32-bit integers; len and ifIndex are plain integers. */
  datatype RoutingTableEntry = RoutingTableEntry(addr: uint32, len: uint32, ifIndex: uint32, nexthop: uint32)

  /** key_equal: same addr and same len. */
  predicate KeyEqual(a: RoutingTableEntry, b: RoutingTableEntry)
  {
    a.addr == b.addr && a.len == b.len
  }

  function Pow2(n: nat): (r: nat)
    ensures 0 < r
  {
    if n == 0 then 1 else 2 * Pow2(n - 1)
  }

  /** match: for len 32 the addresses are equal; otherwise the entry's addr
      equals addr & ((1u << len) - 1), i.e. the low len bits of addr, which
      is addr mod 2^len. A shift by more than 31 is undefined in C, so len
      must not exceed 32. */
  predicate Match(e: RoutingTableEntry, addr: uint32)
    requires e.len <= 32
  {
    if e.len == 32 then e.addr == addr else e.addr == addr % Pow2(e.len)
  }

  /** The invariant the comment in lookup.cpp promises of an entry: only the low
      len bits of addr may be non-zero. */
  predicate WellFormed(e: RoutingTableEntry)
  {
    e.len <= 32 && (e.len < 32 ==> e.addr < Pow2(e.len))
  }

  /** A prefix of length 0 whose address keeps the invariant matches every
      address: it is a default route. */
  lemma DefaultRouteMatchesAll(e: RoutingTableEntry, addr: uint32)
    requires WellFormed(e) && e.len == 0
    ensures Match(e, addr)
  {
  }

  lemma ModBelow(a: nat, m: nat)
    requires a < m
    ensures a % m == a
  {
  }

  /** An entry that keeps the invariant matches its own address. */
  lemma EntryMatchesOwnAddress(e: RoutingTableEntry)
    requires WellFormed(e)
    ensures Match(e, e.addr)
  {
    if e.len < 32 {
      ModBelow(e.addr, Pow2(e.len));
    }
  }

  /** Every entry's len is at most 32, so match is defined on all of them. */
  predicate LengthsValid(s: seq<RoutingTableEntry>)
  {
    forall k | 0 <= k < |s| :: s[k].len <= 32
  }

  /** No two entries share a key, as update keeps it. */
  predicate UniqueKeys(s: seq<RoutingTableEntry>)
  {
    forall i, j | 0 <= i < j < |s| :: !KeyEqual(s[i], s[j])
  }

  /** The index find_addr returns: the first entry with e's key, or -1. */
  function KeyIndex(s: seq<RoutingTableEntry>, e: RoutingTableEntry): (r: int)
    ensures -1 <= r < |s|
    ensures r == -1 <==> forall j | 0 <= j < |s| :: !KeyEqual(s[j], e)
    ensures r >= 0 ==> KeyEqual(s[r], e) && forall j | 0 <= j < r :: !KeyEqual(s[j], e)
  {
    if s == [] then -1
    else if KeyEqual(s[0], e) then 0
    else
      var r := KeyIndex(s[1..], e);
      if r == -1 then -1 else r + 1
  }

  /** The table after update(insert, entry), as a value. */
  function Updated(s: seq<RoutingTableEntry>, insert: bool, entry: RoutingTableEntry): seq<RoutingTableEntry>
  {
    var idx := KeyIndex(s, entry);
    if insert then
      if idx == -1 then s + [entry] else s[idx := entry]
    else
      if idx != -1 then s[..idx] + s[idx + 1..] else s
  }

  /** Inserting an absent key appends the entry at the end. */
  lemma InsertAbsentAppends(s: seq<RoutingTableEntry>, entry: RoutingTableEntry)
    requires forall j | 0 <= j < |s| :: !KeyEqual(s[j], entry)
    ensures Updated(s, true, entry) == s + [entry]
  {
  }

  /** Inserting a present key keeps the size, replaces the whole entry at the
      first index with that key, and leaves every other index as it was. */
  lemma InsertPresentReplaces(s: seq<RoutingTableEntry>, entry: RoutingTableEntry, i: nat)
    requires i < |s| && KeyEqual(s[i], entry)
    requires forall j | 0 <= j < i :: !KeyEqual(s[j], entry)
    ensures |Updated(s, true, entry)| == |s|
    ensures Updated(s, true, entry)[i] == entry
    ensures forall j | 0 <= j < |s| && j != i :: Updated(s, true, entry)[j] == s[j]
  {
    assert KeyIndex(s, entry) == i;
  }

  /** Deleting removes exactly the first entry with the key and keeps the
      others in their order. */
  lemma DeleteRemovesFirstMatch(s: seq<RoutingTableEntry>, entry: RoutingTableEntry, i: nat)
    requires i < |s| && KeyEqual(s[i], entry)
    requires forall j | 0 <= j < i :: !KeyEqual(s[j], entry)
    ensures |Updated(s, false, entry)| == |s| - 1
    ensures forall j | 0 <= j < i :: Updated(s, false, entry)[j] == s[j]
    ensures forall j | i <= j < |s| - 1 :: Updated(s, false, entry)[j] == s[j + 1]
  {
    assert KeyIndex(s, entry) == i;
  }

  /** Deleting an absent key leaves the table unchanged. */
  lemma DeleteAbsentKeepsTable(s: seq<RoutingTableEntry>, entry: RoutingTableEntry)
    requires forall j | 0 <= j < |s| :: !KeyEqual(s[j], entry)
    ensures Updated(s, false, entry) == s
  {
  }

  /** update keeps keys unique; afterwards the key is present exactly when
      it was inserted. */
  lemma UpdatePreservesUniqueKeys(s: seq<RoutingTableEntry>, insert: bool, entry: RoutingTableEntry)
    requires UniqueKeys(s)
    ensures UniqueKeys(Updated(s, insert, entry))
    ensures insert <==> exists j | 0 <= j < |Updated(s, insert, entry)| :: KeyEqual(Updated(s, insert, entry)[j], entry)
  {
    var r := Updated(s, insert, entry);
    var idx := KeyIndex(s, entry);
    if insert {
      if idx == -1 {
        assert KeyEqual(r[|s|], entry);
      } else {
        assert KeyEqual(r[idx], entry);
      }
    } else if idx != -1 {
      forall j | 0 <= j < |r|
        ensures !KeyEqual(r[j], entry)
      {
        if j >= idx {
          assert r[j] == s[j + 1];
          assert !KeyEqual(s[idx], s[j + 1]);
        }
      }
    }
  }

  /** Entry k is the one prefix_query picks for addr: it matches, no matching
      entry is longer, and every earlier matching entry is strictly shorter
      (the comparison is a strict >, so the first of the longest wins). */
  predicate IsFirstLongestMatch(s: seq<RoutingTableEntry>, addr: uint32, k: int)
    requires LengthsValid(s)
  {
    0 <= k < |s| && Match(s[k], addr) &&
    (forall j | 0 <= j < |s| && Match(s[j], addr) :: s[j].len <= s[k].len) &&
    (forall j | 0 <= j < k && Match(s[j], addr) :: s[j].len < s[k].len)
  }

  /** The first-longest match is unique, so prefix_query's answer is
      determined by the table and the address. */
  lemma FirstLongestMatchUnique(s: seq<RoutingTableEntry>, addr: uint32, k1: int, k2: int)
    requires LengthsValid(s)
    requires IsFirstLongestMatch(s, addr, k1) && IsFirstLongestMatch(s, addr, k2)
    ensures k1 == k2
  {
  }

  /** The routing table: the vector `entries` lookup.cpp keeps as a global. */
  class RoutingTable {
    var entries: seq<RoutingTableEntry>

    constructor ()
      ensures entries == []
    {
      entries := [];
    }

    /** find_addr: the least index whose (addr, len) equals e's, or -1. */
    method FindAddr(e: RoutingTableEntry) returns (idx: int)
      ensures idx == KeyIndex(entries, e)
      ensures idx == -1 <==> forall j | 0 <= j < |entries| :: !KeyEqual(entries[j], e)
      ensures idx >= 0 ==> idx < |entries| && KeyEqual(entries[idx], e) &&
                           forall j | 0 <= j < idx :: !KeyEqual(entries[j], e)
    {
      var i := 0;
      while i < |entries|
        invariant 0 <= i <= |entries|
        invariant forall j | 0 <= j < i :: !KeyEqual(entries[j], e)
      {
        if KeyEqual(entries[i], e) {
          return i;
        }
        i := i + 1;
      }
      return -1;
    }

    /** update: insert replaces an entry with the same key or appends;
        delete erases the entry with the same key, if any. */
    method Update(insert: bool, entry: RoutingTableEntry)
      modifies this
      ensures entries == Updated(old(entries), insert, entry)
      ensures old(UniqueKeys(entries)) ==> UniqueKeys(entries)
    {
      ghost var before := entries;
      var idx := FindAddr(entry);
      if insert {
        if idx == -1 {
          entries := entries + [entry];
        } else {
          entries := entries[idx := entry];
        }
      } else {
        if idx != -1 {
          entries := entries[..idx] + entries[idx + 1..];
        }
      }
      if UniqueKeys(before) {
        UpdatePreservesUniqueKeys(before, insert, entry);
      }
    }

    /** prefix_query: the nexthop and if_index of the first entry with the
        longest matching prefix. The outputs are out-parameters prefix_query writes
        only on success, so their previous values come in and go out
        unchanged when nothing matches. The table is not changed. */
    method PrefixQuery(addr: uint32, nexthopIn: uint32, ifIndexIn: uint32)
      returns (found: bool, nexthop: uint32, ifIndex: uint32)
      requires LengthsValid(entries)
      ensures found <==> exists k | 0 <= k < |entries| :: Match(entries[k], addr)
      ensures !found ==> nexthop == nexthopIn && ifIndex == ifIndexIn
      ensures found ==> exists k | 0 <= k < |entries| ::
        IsFirstLongestMatch(entries, addr, k) &&
        nexthop == entries[k].nexthop && ifIndex == entries[k].ifIndex
    {
      var i := 0;
      var maxMatchI: int := -1;
      var maxMatchLen: int := -1;
      while i < |entries|
        invariant 0 <= i <= |entries|
        invariant -1 <= maxMatchI < i
        invariant maxMatchI == -1 <==> forall j | 0 <= j < i :: !Match(entries[j], addr)
        invariant maxMatchI == -1 ==> maxMatchLen == -1
        invariant maxMatchI >= 0 ==>
          Match(entries[maxMatchI], addr) && maxMatchLen == entries[maxMatchI].len &&
          (forall j | 0 <= j < i && Match(entries[j], addr) :: entries[j].len <= maxMatchLen) &&
          (forall j | 0 <= j < maxMatchI && Match(entries[j], addr) :: entries[j].len < maxMatchLen)
      {
        var e := entries[i];
        if Match(e, addr) && e.len > maxMatchLen {
          maxMatchLen := e.len;
          maxMatchI := i;
        }
        i := i + 1;
      }
      if maxMatchI == -1 {
        return false, nexthopIn, ifIndexIn;
      }
      assert IsFirstLongestMatch(entries, addr, maxMatchI);
      return true, entries[maxMatchI].nexthop, entries[maxMatchI].ifIndex;
    }
  }
}
