/**
  The core blockers cache: a chained hash table whose entries are id-ordered
  node sets that share a blocking core. Emptied entries are recycled through a
  free list, and every cached node records its entry ("blocking cargo") so that
  it can be removed without recomputing its hash, which may have changed since
  it was added.

  Entries live in an arena indexed by handle. A bucket is the chain of handles
  the source links through CacheEntry.m_nextEntry, head first; the free list is
  the chain starting at m_emptyEntries. The ghost sequence `owner` says where
  each handle currently is, which is what makes the chains disjoint.
 */
module BlockersCache {
  import opened Base

  type Handle = nat

  /** The bucket count clear() installs. */
  const INITIAL_CAPACITY: int := 1024

  predicate IsPowerOfTwo(n: int)
    decreases n
  {
    n == 1 || (n >= 2 && n % 2 == 0 && IsPowerOfTwo(n / 2))
  }

  /**
    The bit mixing of getIndexFor in 32-bit arithmetic: `+` wraps, `!` is `~`
    and `>>` on bv32 is the logical shift `>>>`.
   */
  function Mix(h0: bv32): bv32 {
    var h1 := h0 + !(h0 << 9);
    var h2 := h1 ^ (h1 >> 14);
    var h3 := h2 + (h2 << 4);
    h3 ^ (h3 >> 10)
  }

  lemma DoublePowerOfTwo(n: int)
    requires IsPowerOfTwo(n)
    ensures IsPowerOfTwo(2 * n)
  {
    assert (2 * n) / 2 == n;
  }

  /** `x & (len - 1)` for a power of two len, read as a non-negative int. */
  function LowBits(x: bv32, len: int): (r: int)
    requires IsPowerOfTwo(len)
    ensures 0 <= r < len
    decreases len
  {
    if len == 1 then 0
    else (if x & 1 == 1 then 1 else 0) + 2 * LowBits(x >> 1, len / 2)
  }

  /** getIndexFor: the bucket of a hash code in a table of the given power-of-two length. */
  function GetIndexFor(hashCode: bv32, tableLength: int): (r: int)
    requires IsPowerOfTwo(tableLength)
    ensures 0 <= r < tableLength
  {
    LowBits(Mix(hashCode), tableLength)
  }

  /**
    Doubling the table splits every bucket in two: an entry of bucket i moves
    to bucket i or bucket i + len.
   */
  lemma {:induction false} LowBitsDouble(x: bv32, len: int)
    requires IsPowerOfTwo(len)
    ensures IsPowerOfTwo(2 * len)
    ensures LowBits(x, 2 * len) == LowBits(x, len) || LowBits(x, 2 * len) == LowBits(x, len) + len
    decreases len
  {
    assert (2 * len) / 2 == len;
    if len > 1 {
      LowBitsDouble(x >> 1, len / 2);
      assert 2 * (len / 2) == len;
    }
  }

  lemma GetIndexForDoubled(hashCode: bv32, len: int)
    requires IsPowerOfTwo(len)
    ensures IsPowerOfTwo(2 * len)
    ensures var i := GetIndexFor(hashCode, len);
      GetIndexFor(hashCode, 2 * len) == i || GetIndexFor(hashCode, 2 * len) == i + len
  {
    LowBitsDouble(Mix(hashCode), len);
  }

  // ---------------------------------------------------------------------------
  // Entries, chains and the lookup of the matching entry

  /** CacheEntry without its link: m_nodes as an id-ordered set, and m_hashCode. */
  datatype CacheEntry = CacheEntry(nodes: set<NodeId>, hashCode: bv32)

  /** What removeNode leaves in a recycled entry: no nodes and hash code 0. */
  const EMPTY_ENTRY := CacheEntry({}, 0)

  /** Where an arena handle is: in the chain of a bucket, or on the free list. */
  datatype Slot = InBucket(index: nat) | Free

  /** How addNode ended; the last two correspond to the source's exceptions. */
  datatype AddOutcome =
    | JoinedEntry        // the node joined the entry with its core
    | NewEntry           // the node opened a new entry
    | AlreadyCached      // "node already in the cache!"
    | CapacityOverflow   // a new entry was opened but doubling the table overflows a Java int

  /** The test addNode and the lookups apply to each entry of the chain. */
  predicate Matches(e: CacheEntry, hashCode: bv32, node: NodeId, checker: DirectBlockingChecker) {
    e.hashCode == hashCode && e.nodes != {} && checker.isBlockedBy(First(e.nodes), node)
  }

  predicate MatchesAt(chain: seq<Handle>, k: int, arena: seq<CacheEntry>, hashCode: bv32,
                      node: NodeId, checker: DirectBlockingChecker)
    requires 0 <= k < |chain|
  {
    chain[k] < |arena| && Matches(arena[chain[k]], hashCode, node, checker)
  }

  /** The position of the first entry of a chain that matches the node. */
  function FirstMatch(chain: seq<Handle>, arena: seq<CacheEntry>, hashCode: bv32,
                      node: NodeId, checker: DirectBlockingChecker): (r: Option<nat>)
    ensures r.Some? ==> r.value < |chain| && MatchesAt(chain, r.value, arena, hashCode, node, checker)
    ensures r.Some? ==> forall j :: 0 <= j < r.value ==> !MatchesAt(chain, j, arena, hashCode, node, checker)
    ensures r.None? ==> forall j :: 0 <= j < |chain| ==> !MatchesAt(chain, j, arena, hashCode, node, checker)
  {
    if chain == [] then None
    else if MatchesAt(chain, 0, arena, hashCode, node, checker) then Some(0)
    else
      var rest := FirstMatch(chain[1..], arena, hashCode, node, checker);
      assert forall j :: 1 <= j < |chain| ==>
        (MatchesAt(chain, j, arena, hashCode, node, checker) <==> MatchesAt(chain[1..], j - 1, arena, hashCode, node, checker));
      match rest
      case None => None
      case Some(k) => Some(k + 1)
  }

  /** The handle of the entry addNode and the lookups settle on, if any. */
  function LookupIn(b: seq<seq<Handle>>, arena: seq<CacheEntry>, node: NodeId,
                    checker: DirectBlockingChecker): (r: Option<Handle>)
    requires IsPowerOfTwo(|b|)
    ensures r.Some? ==> var hashCode := checker.blockingHashCode(node);
      r.value in b[GetIndexFor(hashCode, |b|)] && r.value < |arena| && Matches(arena[r.value], hashCode, node, checker)
  {
    var hashCode := checker.blockingHashCode(node);
    var chain := b[GetIndexFor(hashCode, |b|)];
    match FirstMatch(chain, arena, hashCode, node, checker)
    case None => None
    case Some(k) => Some(chain[k])
  }

  /** The chain with the first occurrence of a handle taken out. */
  function Unlink(chain: seq<Handle>, h: Handle): (r: seq<Handle>)
    ensures h in chain ==> |r| == |chain| - 1
    ensures h !in chain ==> r == chain
  {
    if chain == [] then []
    else if chain[0] == h then chain[1..]
    else [chain[0]] + Unlink(chain[1..], h)
  }

  /** Unlinking at the first occurrence joins the parts before and after it. */
  lemma {:induction false} UnlinkAt(chain: seq<Handle>, k: nat)
    requires k < |chain|
    requires forall j :: 0 <= j < k ==> chain[j] != chain[k]
    ensures Unlink(chain, chain[k]) == chain[..k] + chain[k + 1..]
  {
    if k > 0 {
      UnlinkAt(chain[1..], k - 1);
      assert chain[1..][..k - 1] == chain[1..k];
      assert chain[1..][k..] == chain[k + 1..];
      assert chain[..k] == [chain[0]] + chain[1..k];
    }
  }

  /** A cargo map without the given nodes. */
  function Without(cargo: map<NodeId, Handle>, s: set<NodeId>): (r: map<NodeId, Handle>)
    ensures forall n :: n in r <==> n in cargo && n !in s
    ensures forall n :: n in r ==> r[n] == cargo[n]
  {
    map n | n in cargo && n !in s :: cargo[n]
  }

  /** headSet(node) and tailSet(node) of an id-ordered node set. */
  function Below(s: set<NodeId>, node: NodeId): set<NodeId> {
    set m | m in s && m < node
  }

  function AtOrAbove(s: set<NodeId>, node: NodeId): set<NodeId> {
    set m | m in s && m >= node
  }

  /**
    The loop that calls setBlockingCargo(null) for every member of a node set,
    visiting the members in id order.
   */
  method ReleaseCargo(cargo: map<NodeId, Handle>, s: set<NodeId>) returns (r: map<NodeId, Handle>)
    ensures r == Without(cargo, s)
  {
    AscendingElements(s);
    r := ReleaseEach(cargo, Ascending(s));
  }

  /** setBlockingCargo(null) for each node of a sequence in turn. */
  method ReleaseEach(cargo: map<NodeId, Handle>, members: seq<NodeId>) returns (r: map<NodeId, Handle>)
    ensures r == Without(cargo, Elements(members))
  {
    r := cargo;
    var j := 0;
    while j < |members|
      invariant 0 <= j <= |members|
      invariant r == Without(cargo, Elements(members[..j]))
    {
      assert Elements(members[..j + 1]) == Elements(members[..j]) + {members[j]} by {
        assert members[..j + 1] == members[..j] + [members[j]];
      }
      r := r - {members[j]};
      j := j + 1;
    }
    assert members[..j] == members;
  }

  // ---------------------------------------------------------------------------
  // The table invariant, on the values of the fields

  /** Positions k1 < k2 of s hold different handles. */
  ghost predicate DistinctAt(s: seq<Handle>, k1: int, k2: int) {
    0 <= k1 < k2 < |s| ==> s[k1] != s[k2]
  }

  /** No handle occurs twice; instantiated only at the positions a proof names. */
  ghost predicate NoDup(s: seq<Handle>) {
    forall k1, k2 {:trigger DistinctAt(s, k1, k2)} :: DistinctAt(s, k1, k2)
  }

  lemma NoDupCons(x: Handle, s: seq<Handle>)
    requires NoDup(s) && x !in s
    ensures NoDup([x] + s)
  {
    var t := [x] + s;
    forall k1, k2 ensures DistinctAt(t, k1, k2) {
      if 0 <= k1 < k2 < |t| {
        assert t[k2] == s[k2 - 1];
        if k1 > 0 {
          assert t[k1] == s[k1 - 1];
          assert DistinctAt(s, k1 - 1, k2 - 1);
        }
      }
    }
  }

  /** Taking out position k of a duplicate-free chain removes exactly that handle. */
  lemma RemoveAtFacts(s: seq<Handle>, k: nat)
    requires NoDup(s) && k < |s|
    ensures var r := s[..k] + s[k + 1..];
      && |r| == |s| - 1
      && (forall j :: 0 <= j < |r| ==> r[j] == s[if j < k then j else j + 1])
      && NoDup(r) && s[k] !in r
      && forall x :: x in s && x != s[k] ==> x in r
  {
    var r := s[..k] + s[k + 1..];
    assert forall j :: 0 <= j < |r| ==> r[j] == s[if j < k then j else j + 1];
    forall k1, k2 ensures DistinctAt(r, k1, k2) {
      if 0 <= k1 < k2 < |r| {
        assert DistinctAt(s, if k1 < k then k1 else k1 + 1, if k2 < k then k2 else k2 + 1);
      }
    }
    forall j | 0 <= j < |r| ensures r[j] != s[k] {
      if j < k { assert DistinctAt(s, j, k); } else { assert DistinctAt(s, k, j + 1); }
    }
    forall x | x in s && x != s[k] ensures x in r {
      var p :| 0 <= p < |s| && s[p] == x;
      assert r[if p < k then p else p - 1] == x;
    }
  }

  /** A power-of-two table of at least 1024 buckets whose threshold is 75% of it. */
  ghost predicate CapacityInv(len: int, threshold: int) {
    IsPowerOfTwo(len) && INITIAL_CAPACITY <= len <= INT_MAX && threshold == len * 3 / 4
  }

  ghost predicate ChainsNoDup(b: seq<seq<Handle>>) {
    forall i :: 0 <= i < |b| ==> NoDup(b[i])
  }

  /** Every chain holds only handles owned by its bucket, so no two chains share one. */
  ghost predicate ChainsOwned(b: seq<seq<Handle>>, owner: seq<Slot>) {
    forall i, k :: 0 <= i < |b| && 0 <= k < |b[i]| ==> b[i][k] < |owner| && owner[b[i][k]] == InBucket(i)
  }

  ghost predicate FreeOwned(free: seq<Handle>, owner: seq<Slot>) {
    NoDup(free) && forall k :: 0 <= k < |free| ==> free[k] < |owner| && owner[free[k]] == Free
  }

  /** Every handle is where its owner says. */
  ghost predicate Complete(b: seq<seq<Handle>>, free: seq<Handle>, owner: seq<Slot>) {
    forall h :: 0 <= h < |owner| ==>
      (owner[h].InBucket? ==> owner[h].index < |b| && h in b[owner[h].index]) &&
      (owner[h].Free? ==> h in free)
  }

  /** The bucket getIndexFor gives the hash code of entry h in a table of length len. */
  ghost function BucketOf(arena: seq<CacheEntry>, h: int, len: int): int {
    if 0 <= h < |arena| && IsPowerOfTwo(len) then GetIndexFor(arena[h].hashCode, len) else -1
  }

  /** Chained entries are non-empty and in the bucket of their hash; free ones are blank. */
  ghost predicate Placed(len: int, arena: seq<CacheEntry>, owner: seq<Slot>) {
    IsPowerOfTwo(len) && |owner| == |arena| &&
    (forall h :: 0 <= h < |arena| ==>
      (owner[h].InBucket? ==> arena[h].nodes != {}) && (owner[h].Free? ==> arena[h] == EMPTY_ENTRY)) &&
    (forall h {:trigger BucketOf(arena, h, len)} ::
      0 <= h < |arena| && owner[h].InBucket? ==> BucketOf(arena, h, len) == owner[h].index)
  }

  /** Placed survives replacing one entry and its slot by a pair that is placed itself. */
  lemma PlacedUpdate(len: int, arena: seq<CacheEntry>, owner: seq<Slot>, h: Handle, e: CacheEntry, o: Slot)
    requires Placed(len, arena, owner) && h < |arena|
    requires o.InBucket? ==> e.nodes != {} && GetIndexFor(e.hashCode, len) == o.index
    requires o.Free? ==> e == EMPTY_ENTRY
    ensures Placed(len, arena[h := e], owner[h := o])
  {
    var arena', owner' := arena[h := e], owner[h := o];
    forall h' | 0 <= h' < |arena'| && owner'[h'].InBucket?
      ensures BucketOf(arena', h', len) == owner'[h'].index
    {
      if h' != h { assert BucketOf(arena', h', len) == BucketOf(arena, h', len); }
    }
  }

  /** The cargo of a node is the chained entry holding it, and every chained member has cargo. */
  ghost predicate CargoExact(arena: seq<CacheEntry>, owner: seq<Slot>, cargo: map<NodeId, Handle>) {
    |owner| == |arena| &&
    (forall n :: n in cargo ==> cargo[n] < |arena| && owner[cargo[n]].InBucket? && n in arena[cargo[n]].nodes) &&
    (forall h, n :: 0 <= h < |arena| && owner[h].InBucket? && n in arena[h].nodes ==> n in cargo && cargo[n] == h)
  }

  /** The handles of the entries in the table. */
  ghost function Live(owner: seq<Slot>): set<Handle> {
    set h | 0 <= h < |owner| && owner[h].InBucket?
  }

  ghost predicate TableInv(b: seq<seq<Handle>>, arena: seq<CacheEntry>, free: seq<Handle>, owner: seq<Slot>,
                           cargo: map<NodeId, Handle>, count: int, threshold: int) {
    && CapacityInv(|b|, threshold) && ChainsNoDup(b) && ChainsOwned(b, owner) && FreeOwned(free, owner)
    && Complete(b, free, owner) && Placed(|b|, arena, owner) && CargoExact(arena, owner, cargo)
    && count == |Live(owner)|
  }

  // ---------------------------------------------------------------------------
  // The invariant is preserved by each change the cache makes

  /** What clear installs satisfies the invariant: 1024 empty buckets, no entries, no cargo. */
  lemma EmptyTable(b: seq<seq<Handle>>)
    requires |b| == INITIAL_CAPACITY && forall i :: 0 <= i < |b| ==> b[i] == []
    ensures TableInv(b, [], [], [], map[], 0, INITIAL_CAPACITY * 3 / 4) && Live([]) == {}
  {
    assert Live([]) == {};
    assert IsPowerOfTwo(INITIAL_CAPACITY);
  }

  lemma LiveFree(owner: seq<Slot>, h: Handle)
    requires h < |owner| && owner[h].InBucket?
    ensures Live(owner[h := Free]) == Live(owner) - {h}
    ensures |Live(owner[h := Free])| == |Live(owner)| - 1
  {
    assert Live(owner[h := Free]) == Live(owner) - {h};
  }

  lemma LiveTake(owner: seq<Slot>, h: Handle, i: nat)
    requires h < |owner| && owner[h].Free?
    ensures Live(owner[h := InBucket(i)]) == Live(owner) + {h}
    ensures |Live(owner[h := InBucket(i)])| == |Live(owner)| + 1
  {
    assert Live(owner[h := InBucket(i)]) == Live(owner) + {h};
  }

  lemma UnlinkChains(b: seq<seq<Handle>>, owner: seq<Slot>, i: nat, k: nat)
    requires ChainsNoDup(b) && ChainsOwned(b, owner) && i < |b| && k < |b[i]|
    ensures var b' := b[i := b[i][..k] + b[i][k + 1..]];
      ChainsNoDup(b') && ChainsOwned(b', owner[b[i][k] := Free])
  {
    var h := b[i][k];
    var b' := b[i := b[i][..k] + b[i][k + 1..]];
    RemoveAtFacts(b[i], k);
    forall i', k' | 0 <= i' < |b'| && 0 <= k' < |b'[i']|
      ensures b'[i'][k'] < |owner| && owner[h := Free][b'[i'][k']] == InBucket(i')
    {
      if i' == i {
        assert b'[i][k'] == b[i][if k' < k then k' else k' + 1];
      } else {
        assert b'[i'][k'] == b[i'][k'];
      }
    }
  }

  lemma UnlinkComplete(b: seq<seq<Handle>>, free: seq<Handle>, owner: seq<Slot>, i: nat, k: nat)
    requires ChainsNoDup(b) && ChainsOwned(b, owner) && Complete(b, free, owner) && i < |b| && k < |b[i]|
    ensures Complete(b[i := b[i][..k] + b[i][k + 1..]], [b[i][k]] + free, owner[b[i][k] := Free])
  {
    RemoveAtFacts(b[i], k);
  }

  lemma UnlinkFree(free: seq<Handle>, owner: seq<Slot>, h: Handle)
    requires FreeOwned(free, owner) && h < |owner| && owner[h].InBucket?
    ensures FreeOwned([h] + free, owner[h := Free])
  {
    NoDupCons(h, free);
  }

  lemma UnlinkCargo(arena: seq<CacheEntry>, owner: seq<Slot>, cargo: map<NodeId, Handle>, h: Handle)
    requires CargoExact(arena, owner, cargo) && h < |arena| && owner[h].InBucket?
    ensures CargoExact(arena[h := EMPTY_ENTRY], owner[h := Free], Without(cargo, arena[h].nodes))
  {
    var arena', owner', cargo' := arena[h := EMPTY_ENTRY], owner[h := Free], Without(cargo, arena[h].nodes);
    forall n | n in cargo'
      ensures cargo'[n] < |arena'| && owner'[cargo'[n]].InBucket? && n in arena'[cargo'[n]].nodes
    {
      assert cargo[n] != h;
    }
    forall h', n | 0 <= h' < |arena'| && owner'[h'].InBucket? && n in arena'[h'].nodes
      ensures n in cargo' && cargo'[n] == h'
    {
      assert h' != h && n in arena[h'].nodes;
      assert cargo[n] == h';
    }
  }

  /** removeNode of an entry's least member: the entry is unlinked, blanked and freed. */
  lemma UnlinkPreserves(b: seq<seq<Handle>>, arena: seq<CacheEntry>, free: seq<Handle>, owner: seq<Slot>,
                        cargo: map<NodeId, Handle>, count: int, threshold: int, i: nat, k: nat)
    requires TableInv(b, arena, free, owner, cargo, count, threshold)
    requires i < |b| && k < |b[i]|
    ensures var h := b[i][k];
      && h in Live(owner) && Live(owner[h := Free]) == Live(owner) - {h}
      && TableInv(b[i := b[i][..k] + b[i][k + 1..]], arena[h := EMPTY_ENTRY], [h] + free, owner[h := Free],
               Without(cargo, arena[h].nodes), count - 1, threshold)
  {
    var h := b[i][k];
    UnlinkChains(b, owner, i, k);
    UnlinkComplete(b, free, owner, i, k);
    UnlinkFree(free, owner, h);
    UnlinkCargo(arena, owner, cargo, h);
    PlacedUpdate(|b|, arena, owner, h, EMPTY_ENTRY, Free);
    LiveFree(owner, h);
  }

  /** removeNode of a later member: members from it on leave the entry and lose their cargo. */
  lemma TruncatePreserves(b: seq<seq<Handle>>, arena: seq<CacheEntry>, free: seq<Handle>, owner: seq<Slot>,
                          cargo: map<NodeId, Handle>, count: int, threshold: int, h: Handle, node: NodeId)
    requires TableInv(b, arena, free, owner, cargo, count, threshold)
    requires h < |arena| && owner[h].InBucket? && node in arena[h].nodes && node != First(arena[h].nodes)
    ensures var e := arena[h];
      TableInv(b, arena[h := CacheEntry(Below(e.nodes, node), e.hashCode)], free, owner,
               Without(cargo, AtOrAbove(e.nodes, node)), count, threshold)
  {
    var e := arena[h];
    assert First(e.nodes) in Below(e.nodes, node);
    var arena' := arena[h := CacheEntry(Below(e.nodes, node), e.hashCode)];
    var cargo' := Without(cargo, AtOrAbove(e.nodes, node));
    assert BucketOf(arena, h, |b|) == owner[h].index;
    PlacedUpdate(|b|, arena, owner, h, CacheEntry(Below(e.nodes, node), e.hashCode), owner[h]);
    assert owner[h := owner[h]] == owner;
    TruncateCargo(arena, owner, cargo, h, node);
  }

  lemma TruncateCargo(arena: seq<CacheEntry>, owner: seq<Slot>, cargo: map<NodeId, Handle>, h: Handle, node: NodeId)
    requires CargoExact(arena, owner, cargo) && h < |arena| && owner[h].InBucket?
    ensures var e := arena[h];
      CargoExact(arena[h := CacheEntry(Below(e.nodes, node), e.hashCode)], owner, Without(cargo, AtOrAbove(e.nodes, node)))
  {
    var e := arena[h];
    var arena' := arena[h := CacheEntry(Below(e.nodes, node), e.hashCode)];
    var cargo' := Without(cargo, AtOrAbove(e.nodes, node));
    forall n | n in cargo'
      ensures cargo'[n] < |arena'| && owner[cargo'[n]].InBucket? && n in arena'[cargo'[n]].nodes
    {
      if cargo[n] == h { assert n in Below(e.nodes, node); }
    }
    forall h', n | 0 <= h' < |arena'| && owner[h'].InBucket? && n in arena'[h'].nodes
      ensures n in cargo' && cargo'[n] == h'
    {
      if h' == h {
        assert n in e.nodes && n < node;
      } else {
        assert n in arena[h'].nodes;
        assert cargo[n] == h' && h' != h;
      }
    }
  }

  lemma JoinCargo(arena: seq<CacheEntry>, owner: seq<Slot>, cargo: map<NodeId, Handle>, h: Handle, node: NodeId)
    requires CargoExact(arena, owner, cargo) && h < |arena| && owner[h].InBucket? && node !in cargo
    ensures CargoExact(arena[h := CacheEntry(arena[h].nodes + {node}, arena[h].hashCode)], owner, cargo[node := h])
  {
    var arena' := arena[h := CacheEntry(arena[h].nodes + {node}, arena[h].hashCode)];
    forall h', n | 0 <= h' < |arena'| && owner[h'].InBucket? && n in arena'[h'].nodes
      ensures n in cargo[node := h] && cargo[node := h][n] == h'
    {
      assert n != node ==> n in arena[h'].nodes;
      assert n == node ==> h' == h;
    }
  }

  /** addNode into the matching entry of a node that has no cargo. */
  lemma JoinPreserves(b: seq<seq<Handle>>, arena: seq<CacheEntry>, free: seq<Handle>, owner: seq<Slot>,
                      cargo: map<NodeId, Handle>, count: int, threshold: int, h: Handle, node: NodeId)
    requires TableInv(b, arena, free, owner, cargo, count, threshold)
    requires h < |arena| && owner[h].InBucket? && node !in cargo
    ensures var e := arena[h];
      TableInv(b, arena[h := CacheEntry(e.nodes + {node}, e.hashCode)], free, owner, cargo[node := h], count, threshold)
  {
    JoinCargo(arena, owner, cargo, h, node);
    assert BucketOf(arena, h, |b|) == owner[h].index;
    PlacedUpdate(|b|, arena, owner, h, CacheEntry(arena[h].nodes + {node}, arena[h].hashCode), owner[h]);
    assert owner[h := owner[h]] == owner;
  }

  lemma GrowFree(free: seq<Handle>, owner: seq<Slot>)
    requires FreeOwned(free, owner)
    ensures FreeOwned([|owner|] + free, owner + [Free])
  {
    NoDupCons(|owner|, free);
  }

  lemma GrowPlaced(len: int, arena: seq<CacheEntry>, owner: seq<Slot>, cargo: map<NodeId, Handle>)
    requires Placed(len, arena, owner) && CargoExact(arena, owner, cargo)
    ensures Placed(len, arena + [EMPTY_ENTRY], owner + [Free])
    ensures CargoExact(arena + [EMPTY_ENTRY], owner + [Free], cargo)
  {
    var arena', owner' := arena + [EMPTY_ENTRY], owner + [Free];
    forall h' | 0 <= h' < |arena'| && owner'[h'].InBucket?
      ensures BucketOf(arena', h', len) == owner'[h'].index
    {
      assert BucketOf(arena', h', len) == BucketOf(arena, h', len);
    }
  }

  /** `new CacheEntry()`: a blank entry at a fresh handle, viewed as pushed on the free list. */
  lemma GrowPreserves(b: seq<seq<Handle>>, arena: seq<CacheEntry>, free: seq<Handle>, owner: seq<Slot>,
                      cargo: map<NodeId, Handle>, count: int, threshold: int)
    requires TableInv(b, arena, free, owner, cargo, count, threshold)
    ensures TableInv(b, arena + [EMPTY_ENTRY], [|arena|] + free, owner + [Free], cargo, count, threshold)
  {
    var owner' := owner + [Free];
    assert Live(owner') == Live(owner);
    GrowFree(free, owner);
    GrowPlaced(|b|, arena, owner, cargo);
    assert ChainsOwned(b, owner');
    assert Complete(b, [|arena|] + free, owner');
  }

  lemma InsertChains(b: seq<seq<Handle>>, owner: seq<Slot>, h: Handle, i: nat)
    requires ChainsNoDup(b) && ChainsOwned(b, owner) && h < |owner| && owner[h].Free? && i < |b|
    ensures ChainsNoDup(b[i := [h] + b[i]]) && ChainsOwned(b[i := [h] + b[i]], owner[h := InBucket(i)])
  {
    assert h !in b[i] by {
      forall k | 0 <= k < |b[i]| ensures b[i][k] != h { assert owner[b[i][k]] == InBucket(i); }
    }
    NoDupCons(h, b[i]);
    var b' := b[i := [h] + b[i]];
    forall i', k | 0 <= i' < |b'| && 0 <= k < |b'[i']|
      ensures b'[i'][k] < |owner| && owner[h := InBucket(i)][b'[i'][k]] == InBucket(i')
    {
      if i' == i && k > 0 { assert b'[i'][k] == b[i][k - 1]; }
    }
  }

  lemma InsertFree(b: seq<seq<Handle>>, free: seq<Handle>, owner: seq<Slot>, i: nat)
    requires FreeOwned(free, owner) && Complete(b, free, owner) && free != [] && i < |b|
    ensures FreeOwned(free[1..], owner[free[0] := InBucket(i)])
    ensures Complete(b[i := [free[0]] + b[i]], free[1..], owner[free[0] := InBucket(i)])
  {
    var h := free[0];
    forall k | 0 <= k < |free[1..]| ensures free[1..][k] != h {
      assert free[1..][k] == free[k + 1];
      assert DistinctAt(free, 0, k + 1);
    }
    forall k1, k2 ensures DistinctAt(free[1..], k1, k2) {
      if 0 <= k1 < k2 < |free[1..]| { assert DistinctAt(free, k1 + 1, k2 + 1); }
    }
    var owner' := owner[h := InBucket(i)];
    forall h' | 0 <= h' < |owner'| && owner'[h'].Free? ensures h' in free[1..] {
      var p :| 0 <= p < |free| && free[p] == h';
      assert free[1..][p - 1] == h';
    }
  }

  lemma InsertCargo(len: int, arena: seq<CacheEntry>, owner: seq<Slot>, cargo: map<NodeId, Handle>,
                    h: Handle, node: NodeId, hashCode: bv32)
    requires Placed(len, arena, owner) && CargoExact(arena, owner, cargo)
    requires h < |arena| && owner[h].Free? && node !in cargo
    ensures var i := GetIndexFor(hashCode, len);
      Placed(len, arena[h := CacheEntry({node}, hashCode)], owner[h := InBucket(i)]) &&
      CargoExact(arena[h := CacheEntry({node}, hashCode)], owner[h := InBucket(i)], cargo[node := h])
  {
    PlacedUpdate(len, arena, owner, h, CacheEntry({node}, hashCode), InBucket(GetIndexFor(hashCode, len)));
  }

  /** addNode of a node without a matching entry: the head of the free list becomes its entry. */
  lemma InsertPreserves(b: seq<seq<Handle>>, arena: seq<CacheEntry>, free: seq<Handle>, owner: seq<Slot>,
                        cargo: map<NodeId, Handle>, count: int, threshold: int, node: NodeId, hashCode: bv32)
    requires TableInv(b, arena, free, owner, cargo, count, threshold)
    requires free != [] && node !in cargo
    ensures var h, i := free[0], GetIndexFor(hashCode, |b|);
      TableInv(b[i := [h] + b[i]], arena[h := CacheEntry({node}, hashCode)], free[1..], owner[h := InBucket(i)],
               cargo[node := h], count + 1, threshold)
  {
    var h, i := free[0], GetIndexFor(hashCode, |b|);
    InsertChains(b, owner, h, i);
    InsertFree(b, free, owner, i);
    InsertCargo(|b|, arena, owner, cargo, h, node, hashCode);
    LiveTake(owner, h, i);
  }

  /** The buckets of a table of n empty chains. */
  function EmptyBuckets(n: nat): (r: seq<seq<Handle>>)
    ensures |r| == n && forall j :: 0 <= j < n ==> r[j] == []
  {
    seq(n, _ => [])
  }

  /** The hash code recorded in arena slot h; 0 outside the arena, where no chain points. */
  function HashAt(arena: seq<CacheEntry>, h: Handle): bv32 {
    if h < |arena| then arena[h].hashCode else 0
  }

  /** The entries of a chain, head first, each pushed onto the head of the bucket of its hash in nb. */
  function PushChain(nb: seq<seq<Handle>>, chain: seq<Handle>, arena: seq<CacheEntry>): (r: seq<seq<Handle>>)
    requires IsPowerOfTwo(|nb|)
    ensures |r| == |nb|
    decreases |chain|
  {
    if chain == [] then nb
    else
      var h := chain[0];
      var j := GetIndexFor(HashAt(arena, h), |nb|);
      PushChain(nb[j := [h] + nb[j]], chain[1..], arena)
  }

  /** The chains of b, bucket by bucket, pushed into nb: the table resize builds from nb empty. */
  function PushChains(nb: seq<seq<Handle>>, b: seq<seq<Handle>>, arena: seq<CacheEntry>): (r: seq<seq<Handle>>)
    requires IsPowerOfTwo(|nb|)
    ensures |r| == |nb|
    decreases |b|
  {
    if b == [] then nb
    else PushChains(PushChain(nb, b[0], arena), b[1..], arena)
  }

  /** nb is the table resize builds from the chains of b: a power of two long, b's chains pushed into it. */
  ghost predicate Rebuilt(nb: seq<seq<Handle>>, b: seq<seq<Handle>>, arena: seq<CacheEntry>) {
    IsPowerOfTwo(|nb|) && nb == PushChains(EmptyBuckets(|nb|), b, arena)
  }

  /**
    The buckets nb addNode leaves after opening entry h for a hash code in
    table b: h pushed onto the head of the hash code's bucket, and when the
    table grew, that table rebuilt at twice the length.
   */
  ghost predicate NewEntryTable(nb: seq<seq<Handle>>, b: seq<seq<Handle>>, hashCode: bv32, h: Handle,
                                arena: seq<CacheEntry>, grown: bool) {
    && IsPowerOfTwo(|b|)
    && var i := GetIndexFor(hashCode, |b|);
       var pushed := b[i := [h] + b[i]];
       if grown then |nb| == 2 * |b| && Rebuilt(nb, pushed, arena) else nb == pushed
  }

  /** Pushing the chains of b from bucket i on is pushing chain i, then the chains after it. */
  lemma PushChainsFrom(nb: seq<seq<Handle>>, b: seq<seq<Handle>>, arena: seq<CacheEntry>, i: nat)
    requires IsPowerOfTwo(|nb|) && i < |b|
    ensures PushChains(nb, b[i..], arena) == PushChains(PushChain(nb, b[i], arena), b[i + 1..], arena)
  {
    assert b[i..][0] == b[i] && b[i..][1..] == b[i + 1..];
  }

  /** Handles an interrupted rehash has already moved: chains of buckets before i, and b[i][..k]. */
  ghost predicate Moved(b: seq<seq<Handle>>, owner: seq<Slot>, i: int, k: int, h: Handle)
    requires h < |owner|
  {
    owner[h].InBucket? &&
    (owner[h].index < i || (0 <= i < |b| && 0 <= k <= |b[i]| && owner[h].index == i && h in b[i][..k]))
  }

  /** The new buckets of resize hold exactly the moved handles, each in the bucket of its hash. */
  ghost predicate Rehashed(nb: seq<seq<Handle>>, b: seq<seq<Handle>>, arena: seq<CacheEntry>,
                           owner: seq<Slot>, i: int, k: int) {
    IsPowerOfTwo(|nb|) && |owner| == |arena| && ChainsNoDup(nb) &&
    (forall j, m :: 0 <= j < |nb| && 0 <= m < |nb[j]| ==>
      nb[j][m] < |owner| && Moved(b, owner, i, k, nb[j][m]) && GetIndexFor(arena[nb[j][m]].hashCode, |nb|) == j) &&
    (forall h :: 0 <= h < |owner| && Moved(b, owner, i, k, h) ==> h in nb[GetIndexFor(arena[h].hashCode, |nb|)])
  }

  lemma RehashStart(nb: seq<seq<Handle>>, b: seq<seq<Handle>>, arena: seq<CacheEntry>, owner: seq<Slot>)
    requires IsPowerOfTwo(|nb|) && |owner| == |arena|
    requires forall j :: 0 <= j < |nb| ==> nb[j] == []
    ensures Rehashed(nb, b, arena, owner, 0, 0)
  {
  }

  /** Moving b[i][k] to the head of the bucket of its hash. */
  lemma RehashStep(nb: seq<seq<Handle>>, b: seq<seq<Handle>>, arena: seq<CacheEntry>, owner: seq<Slot>,
                   i: nat, k: nat)
    requires ChainsNoDup(b) && ChainsOwned(b, owner) && i < |b| && k < |b[i]|
    requires Rehashed(nb, b, arena, owner, i, k)
    ensures var h := b[i][k]; var j := GetIndexFor(arena[h].hashCode, |nb|);
      Rehashed(nb[j := [h] + nb[j]], b, arena, owner, i, k + 1)
  {
    var h := b[i][k];
    var j := GetIndexFor(arena[h].hashCode, |nb|);
    var nb' := nb[j := [h] + nb[j]];
    assert b[i][..k + 1] == b[i][..k] + [h];
    assert h !in b[i][..k] by {
      forall p | 0 <= p < k ensures b[i][p] != h { assert DistinctAt(b[i], p, k); }
    }
    forall x | 0 <= x < |owner| ensures Moved(b, owner, i, k + 1, x) <==> Moved(b, owner, i, k, x) || x == h { }
    assert h !in nb[j] by {
      forall m | 0 <= m < |nb[j]| ensures nb[j][m] != h {
        assert Moved(b, owner, i, k, nb[j][m]);
      }
    }
    NoDupCons(h, nb[j]);
    forall j', m | 0 <= j' < |nb'| && 0 <= m < |nb'[j']|
      ensures nb'[j'][m] < |owner| && Moved(b, owner, i, k + 1, nb'[j'][m])
        && GetIndexFor(arena[nb'[j'][m]].hashCode, |nb'|) == j'
    {
      if j' == j && m > 0 { assert nb'[j'][m] == nb[j][m - 1]; }
    }
  }

  /** A bucket's chain is exhausted: continue with the next bucket. */
  lemma RehashNext(nb: seq<seq<Handle>>, b: seq<seq<Handle>>, arena: seq<CacheEntry>, owner: seq<Slot>,
                   free: seq<Handle>, i: nat)
    requires i < |b| && Complete(b, free, owner)
    requires Rehashed(nb, b, arena, owner, i, |b[i]|)
    ensures Rehashed(nb, b, arena, owner, i + 1, 0)
  {
    assert b[i][..|b[i]|] == b[i];
    forall x | 0 <= x < |owner| ensures Moved(b, owner, i + 1, 0, x) <==> Moved(b, owner, i, |b[i]|, x) { }
  }

  /** Every entry's new owner: the bucket of its hash in a table of the new length. */
  ghost function Rehome(owner: seq<Slot>, arena: seq<CacheEntry>, len: int): (r: seq<Slot>)
    requires IsPowerOfTwo(len) && |owner| == |arena|
    ensures |r| == |owner|
    ensures forall h :: 0 <= h < |owner| ==> r[h].InBucket? == owner[h].InBucket?
    ensures forall h :: 0 <= h < |owner| && owner[h].InBucket? ==> r[h] == InBucket(GetIndexFor(arena[h].hashCode, len))
  {
    seq(|owner|, h requires 0 <= h < |owner| =>
      if owner[h].InBucket? then InBucket(GetIndexFor(arena[h].hashCode, len)) else Free)
  }

  /** After the last bucket, the new table is the old one rehashed. */
  lemma RehashDone(nb: seq<seq<Handle>>, b: seq<seq<Handle>>, arena: seq<CacheEntry>, free: seq<Handle>,
                   owner: seq<Slot>, cargo: map<NodeId, Handle>, count: int, threshold: int, newThreshold: int)
    requires TableInv(b, arena, free, owner, cargo, count, threshold)
    requires Rehashed(nb, b, arena, owner, |b|, 0) && CapacityInv(|nb|, newThreshold)
    ensures TableInv(nb, arena, free, Rehome(owner, arena, |nb|), cargo, count, newThreshold)
    ensures Live(Rehome(owner, arena, |nb|)) == Live(owner)
  {
    var owner' := Rehome(owner, arena, |nb|);
    assert Live(owner') == Live(owner);
    forall h | 0 <= h < |owner| && owner[h].InBucket? ensures Moved(b, owner, |b|, 0, h) { }
    assert ChainsOwned(nb, owner');
    assert Complete(nb, free, owner');
    assert Placed(|nb|, arena, owner');
    assert CargoExact(arena, owner', cargo);
  }
  /**
    The walk of a bucket's chain in addNode and the lookups: the position of
    the first entry whose hash code is the node's and whose least member
    blocks the node.
   */
  method FindMatch(chain: seq<Handle>, arena: seq<CacheEntry>, hashCode: bv32, node: NodeId,
                   checker: DirectBlockingChecker) returns (r: Option<nat>)
    requires forall j :: 0 <= j < |chain| ==> chain[j] < |arena| && arena[chain[j]].nodes != {}
    ensures r == FirstMatch(chain, arena, hashCode, node, checker)
  {
    var k := 0;
    while k < |chain|
      invariant 0 <= k <= |chain|
      invariant forall j :: 0 <= j < k ==> !MatchesAt(chain, j, arena, hashCode, node, checker)
    {
      var e := arena[chain[k]];
      if e.hashCode == hashCode && checker.isBlockedBy(First(e.nodes), node) {
        assert MatchesAt(chain, k, arena, hashCode, node, checker);
        return Some(k);
      }
      k := k + 1;
    }
    return None;
  }

  /**
    An entry's position in a chain, found by walking it from the head; the
    chain's length when the entry is not in it.
   */
  method IndexOf(chain: seq<Handle>, h: Handle) returns (k: nat)
    ensures k <= |chain|
    ensures forall j :: 0 <= j < k ==> chain[j] != h
    ensures k < |chain| ==> chain[k] == h
  {
    k := 0;
    while k < |chain| && chain[k] != h
      invariant k <= |chain|
      invariant forall j :: 0 <= j < k ==> chain[j] != h
    {
      k := k + 1;
    }
  }

  /**
    The loops of resize: the chains are walked bucket by bucket, head first,
    and each entry is pushed onto the head of its bucket in a new table.
   */
  method Rehash(buckets: seq<seq<Handle>>, arena: seq<CacheEntry>, ghost owner: seq<Slot>, ghost free: seq<Handle>,
                newCapacity: int) returns (newBuckets: array<seq<Handle>>)
    requires ChainsNoDup(buckets) && ChainsOwned(buckets, owner) && Complete(buckets, free, owner)
    requires IsPowerOfTwo(newCapacity) && |owner| == |arena|
    ensures fresh(newBuckets) && newBuckets.Length == newCapacity
    ensures newBuckets[..] == PushChains(EmptyBuckets(newCapacity), buckets, arena)
    ensures Rehashed(newBuckets[..], buckets, arena, owner, |buckets|, 0)
  {
    newBuckets := new seq<Handle>[newCapacity](_ => []);
    ghost var b := buckets;
    assert newBuckets[..] == EmptyBuckets(newCapacity);
    assert b[0..] == b;
    RehashStart(newBuckets[..], b, arena, owner);
    var i := 0;
    while i < |buckets|
      invariant 0 <= i <= |buckets|
      invariant Rehashed(newBuckets[..], b, arena, owner, i, 0)
      invariant PushChains(newBuckets[..], b[i..], arena) == PushChains(EmptyBuckets(newCapacity), b, arena)
      modifies newBuckets
    {
      i := RehashBucket(newBuckets, buckets, arena, owner, free, i, PushChains(EmptyBuckets(newCapacity), b, arena));
    }
    assert b[i..] == [];
  }

  /** One iteration of resize's outer loop: the chain of bucket i is moved, and the walk goes on at i + 1. */
  method RehashBucket(newBuckets: array<seq<Handle>>, b: seq<seq<Handle>>, arena: seq<CacheEntry>,
                      ghost owner: seq<Slot>, ghost free: seq<Handle>, i: nat, ghost target: seq<seq<Handle>>)
    returns (next: nat)
    requires ChainsNoDup(b) && ChainsOwned(b, owner) && Complete(b, free, owner) && i < |b|
    requires Rehashed(newBuckets[..], b, arena, owner, i, 0)
    requires PushChains(newBuckets[..], b[i..], arena) == target
    modifies newBuckets
    ensures next == i + 1
    ensures Rehashed(newBuckets[..], b, arena, owner, next, 0)
    ensures PushChains(newBuckets[..], b[next..], arena) == target
  {
    PushChainsFrom(newBuckets[..], b, arena, i);
    RehashChain(newBuckets, b, arena, owner, i, b[i]);
    RehashNext(newBuckets[..], b, arena, owner, free, i);
    next := i + 1;
  }

  /** The inner loop of resize: the entries of chain i, head first, each to the head of its new bucket. */
  method RehashChain(newBuckets: array<seq<Handle>>, ghost b: seq<seq<Handle>>, arena: seq<CacheEntry>,
                     ghost owner: seq<Slot>, i: nat, chain: seq<Handle>)
    requires ChainsNoDup(b) && ChainsOwned(b, owner) && i < |b| && chain == b[i]
    requires Rehashed(newBuckets[..], b, arena, owner, i, 0)
    modifies newBuckets
    ensures newBuckets[..] == PushChain(old(newBuckets[..]), chain, arena)
    ensures Rehashed(newBuckets[..], b, arena, owner, i, |chain|)
  {
    var k := 0;
    while k < |chain|
      invariant 0 <= k <= |chain|
      invariant Rehashed(newBuckets[..], b, arena, owner, i, k)
      invariant PushChain(newBuckets[..], chain[k..], arena) == PushChain(old(newBuckets[..]), chain, arena)
    {
      assert chain[k..][0] == chain[k] && chain[k..][1..] == chain[k + 1..];
      var h := chain[k];
      var newIndex := GetIndexFor(arena[h].hashCode, newBuckets.Length);
      assert HashAt(arena, h) == arena[h].hashCode;
      ghost var nb := newBuckets[..];
      RehashStep(nb, b, arena, owner, i, k);
      newBuckets[newIndex] := [h] + newBuckets[newIndex];
      assert newBuckets[..] == nb[newIndex := [h] + nb[newIndex]];
      k := k + 1;
    }
    assert chain[k..] == [];
  }

  // ---------------------------------------------------------------------------
  // The cache

  class CoreBlockersCache {
    /** m_buckets: the chain of entry handles in each bucket, head first. */
    var buckets: seq<seq<Handle>>
    var arena: seq<CacheEntry>
    var emptyEntries: seq<Handle>
    var numberOfElements: int
    var threshold: int
    /** Node.getBlockingCargo() of every node that has one. */
    var cargo: map<NodeId, Handle>
    ghost var owner: seq<Slot>

    /** The table invariant, without the load bound that addNode restores by resizing. */
    ghost predicate CoreValid()
      reads this
    {
      TableInv(buckets, arena, emptyEntries, owner, cargo, numberOfElements, threshold)
    }

    /** Below the threshold, unless the table can no longer double. */
    ghost predicate Valid()
      reads this
    {
      CoreValid() && (numberOfElements < threshold || 2 * |buckets| > INT_MAX)
    }

    /** The handles of the entries in the table. */
    ghost function Entries(): set<Handle>
      reads this
    {
      Live(owner)
    }

    /** The nodes in the cache. */
    ghost function Cached(): set<NodeId>
      reads this
    {
      cargo.Keys
    }

    /** The entry the lookups and addNode settle on for a node. */
    ghost function Lookup(node: NodeId, checker: DirectBlockingChecker): Option<Handle>
      requires CoreValid()
      reads this
    {
      LookupIn(buckets, arena, node, checker)
    }

    /** Every member of the entry a lookup settles on is a cached node. */
    lemma LookupCached(node: NodeId, checker: DirectBlockingChecker)
      requires CoreValid() && Lookup(node, checker).Some?
      ensures arena[Lookup(node, checker).value].nodes <= Cached()
    {
      var h := Lookup(node, checker).value;
      var i := GetIndexFor(checker.blockingHashCode(node), |buckets|);
      var k :| 0 <= k < |buckets[i]| && buckets[i][k] == h;
      assert owner[h] == InBucket(i);
    }

    constructor ()
      ensures Valid()
      ensures Entries() == {} && Cached() == {}
    {
      buckets := [];
      new;
      Clear();
    }

    /**
      clear: a fresh table of 1024 empty buckets and no free list. The source
      leaves stale cargo on the nodes, which are discarded with the tableau at
      the same time; here the cargo map is emptied with the table.
     */
    method Clear()
      modifies this
      ensures Valid()
      ensures |buckets| == INITIAL_CAPACITY && threshold == 768
      ensures Entries() == {} && Cached() == {} && emptyEntries == [] && numberOfElements == 0
    {
      buckets := seq(INITIAL_CAPACITY, _ => []);
      threshold := INITIAL_CAPACITY * 3 / 4;
      numberOfElements := 0;
      emptyEntries := [];
      arena := [];
      cargo := map[];
      owner := [];
      EmptyTable(buckets);
    }

    /** isEmpty: no entry is in the table. */
    function IsEmpty(): (r: bool)
      requires Valid()
      reads this
      ensures r <==> Entries() == {}
    {
      if numberOfElements == 0 then true
      else
        assert numberOfElements == |Entries()|;
        false
    }

    /**
      removeNode: a node without cargo is left alone. Otherwise its entry is
      found in the bucket of the entry's recorded hash. If the node is the
      entry's least member the whole entry is unlinked, its members lose their
      cargo and it goes blank onto the free list; otherwise the members from the
      node on leave the entry and lose their cargo. The source's two "entry not
      in cache" exceptions cannot happen under the invariant.
     */
    method RemoveNode(node: NodeId) returns (removed: bool)
      requires Valid()
      modifies this
      ensures Valid() && |buckets| == old(|buckets|) && threshold == old(threshold)
      ensures removed <==> node in old(cargo)
      ensures !removed ==> unchanged(this)
      ensures node !in Cached() && Cached() <= old(Cached())
      ensures forall m :: m in old(Cached()) && m !in Cached() ==> node <= m
      ensures removed ==>
        var h := old(cargo)[node]; var e := old(arena)[h]; var i := GetIndexFor(e.hashCode, |buckets|);
        if node == First(e.nodes) then
          && buckets == old(buckets)[i := Unlink(old(buckets[i]), h)]
          && arena == old(arena)[h := EMPTY_ENTRY]
          && emptyEntries == [h] + old(emptyEntries)
          && cargo == Without(old(cargo), e.nodes)
          && numberOfElements == old(numberOfElements) - 1
          && Entries() == old(Entries()) - {h}
        else
          && buckets == old(buckets)
          && arena == old(arena)[h := CacheEntry(Below(e.nodes, node), e.hashCode)]
          && emptyEntries == old(emptyEntries)
          && cargo == Without(old(cargo), AtOrAbove(e.nodes, node))
          && numberOfElements == old(numberOfElements)
          && Entries() == old(Entries())
    {
      if node !in cargo {
        return false;
      }
      var h := cargo[node];
      var e := arena[h];
      var i := GetIndexFor(e.hashCode, |buckets|);
      assert BucketOf(arena, h, |buckets|) == owner[h].index;
      var k := IndexOf(buckets[i], h);
      if k == |buckets[i]| {
        assert false;
      }
      if node == First(e.nodes) {
        UnlinkAt(buckets[i], k);
        LiveFree(owner, h);
        UnlinkEntry(i, k);
      } else {
        TruncateEntry(h, node);
      }
      return true;
    }

    /** The whole-entry case of removeNode: entry b[i][k] leaves its chain for the free list. */
    method UnlinkEntry(i: int, k: int)
      requires Valid() && 0 <= i < |buckets| && 0 <= k < |buckets[i]|
      modifies this
      ensures Valid() && |buckets| == old(|buckets|) && threshold == old(threshold)
      ensures var h := old(buckets[i][k]);
        && buckets == old(buckets)[i := old(buckets[i][..k] + buckets[i][k + 1..])]
        && arena == old(arena)[h := EMPTY_ENTRY]
        && emptyEntries == [h] + old(emptyEntries)
        && cargo == Without(old(cargo), old(arena[h].nodes))
        && numberOfElements == old(numberOfElements) - 1
        && owner == old(owner)[h := Free]
    {
      var h := buckets[i][k];
      var released := ReleaseCargo(cargo, arena[h].nodes);
      UnlinkPreserves(buckets, arena, emptyEntries, owner, cargo, numberOfElements, threshold, i, k);
      cargo, emptyEntries, arena, numberOfElements, owner :=
        released, [h] + emptyEntries, arena[h := EMPTY_ENTRY], numberOfElements - 1, owner[h := Free];
      buckets := buckets[i := buckets[i][..k] + buckets[i][k + 1..]];
    }

    /** The other case of removeNode: the members of entry h from node on leave it. */
    method TruncateEntry(h: Handle, node: NodeId)
      requires Valid() && h < |arena| && owner[h].InBucket?
      requires node in arena[h].nodes && node != First(arena[h].nodes)
      modifies this
      ensures Valid() && buckets == old(buckets) && threshold == old(threshold)
      ensures var e := old(arena[h]);
        && arena == old(arena)[h := CacheEntry(Below(e.nodes, node), e.hashCode)]
        && cargo == Without(old(cargo), AtOrAbove(e.nodes, node))
        && emptyEntries == old(emptyEntries) && numberOfElements == old(numberOfElements)
        && owner == old(owner)
    {
      var e := arena[h];
      TruncatePreserves(buckets, arena, emptyEntries, owner, cargo, numberOfElements, threshold, h, node);
      var released := ReleaseCargo(cargo, AtOrAbove(e.nodes, node));
      cargo := released;
      arena := arena[h := CacheEntry(Below(e.nodes, node), e.hashCode)];
    }

    /**
      addNode: the node joins the first entry of its bucket whose hash equals
      the node's blocking hash and whose least member structurally blocks it,
      and otherwise opens a new entry at the head of the bucket, recycled from
      the free list when there is one. Reaching the threshold doubles the table.
      The caller adds only nodes without cargo, or a node into the entry that
      already holds it, which is the fault the source reports.
     */
    method AddNode(node: NodeId, checker: DirectBlockingChecker) returns (outcome: AddOutcome)
      requires Valid()
      requires node in Cached() ==> Lookup(node, checker) == Some(cargo[node])
      modifies this
      ensures Valid()
      ensures outcome == AlreadyCached <==> node in old(Cached())
      ensures outcome == AlreadyCached ==> unchanged(this)
      ensures outcome == JoinedEntry <==> node !in old(Cached()) && old(Lookup(node, checker)).Some?
      ensures outcome == JoinedEntry ==>
        var h := old(Lookup(node, checker)).value;
        && cargo == old(cargo)[node := h]
        && arena == old(arena)[h := CacheEntry(old(arena)[h].nodes + {node}, old(arena)[h].hashCode)]
        && buckets == old(buckets)
        && emptyEntries == old(emptyEntries) && numberOfElements == old(numberOfElements)
        && Entries() == old(Entries())
      ensures outcome == NewEntry || outcome == CapacityOverflow ==>
        var h := if old(emptyEntries) == [] then |old(arena)| else old(emptyEntries)[0];
        && h !in old(Entries()) && Entries() == old(Entries()) + {h}
        && cargo == old(cargo)[node := h]
        && arena == (if old(emptyEntries) == [] then old(arena) + [EMPTY_ENTRY] else old(arena))
                    [h := CacheEntry({node}, checker.blockingHashCode(node))]
        && emptyEntries == (if old(emptyEntries) == [] then [] else old(emptyEntries)[1..])
        && numberOfElements == old(numberOfElements) + 1
      ensures outcome == NewEntry || outcome == CapacityOverflow ==>
        var grown := outcome == NewEntry && old(numberOfElements) + 1 >= old(threshold);
        && NewEntryTable(buckets, old(buckets), checker.blockingHashCode(node),
                         if old(emptyEntries) == [] then |old(arena)| else old(emptyEntries)[0], arena, grown)
        && threshold == if grown then |buckets| * 3 / 4 else old(threshold)
      ensures outcome == CapacityOverflow <==>
        node !in old(Cached()) && old(Lookup(node, checker)).None? &&
        old(numberOfElements) + 1 >= old(threshold) && 2 * old(|buckets|) > INT_MAX
    {
      var hashCode := checker.blockingHashCode(node);
      var i := GetIndexFor(hashCode, |buckets|);
      var found := FindMatch(buckets[i], arena, hashCode, node, checker);
      if found.Some? {
        outcome := JoinMatch(buckets[i][found.value], node);
      } else {
        outcome := InsertNew(i, node, hashCode);
      }
    }

    /**
      The part of addNode after a successful search: the node is already in the
      matching entry h, or joins it.
     */
    method JoinMatch(h: Handle, node: NodeId) returns (outcome: AddOutcome)
      requires Valid() && h < |arena| && owner[h].InBucket? && (node in cargo ==> cargo[node] == h)
      modifies this
      ensures Valid() && buckets == old(buckets) && threshold == old(threshold)
      ensures outcome == AlreadyCached || outcome == JoinedEntry
      ensures outcome == AlreadyCached <==> node in old(cargo)
      ensures outcome == AlreadyCached ==> unchanged(this)
      ensures outcome == JoinedEntry ==>
        && arena == old(arena)[h := CacheEntry(old(arena[h].nodes) + {node}, old(arena[h].hashCode))]
        && cargo == old(cargo)[node := h]
        && emptyEntries == old(emptyEntries) && numberOfElements == old(numberOfElements) && owner == old(owner)
    {
      var e := arena[h];
      if node in e.nodes {
        return AlreadyCached;
      }
      JoinPreserves(buckets, arena, emptyEntries, owner, cargo, numberOfElements, threshold, h, node);
      arena := arena[h := CacheEntry(e.nodes + {node}, e.hashCode)];
      cargo := cargo[node := h];
      return JoinedEntry;
    }

    /**
      The part of addNode after a failed search: a new entry for the node,
      then the resize when the count reaches the threshold.
     */
    method InsertNew(i: int, node: NodeId, hashCode: bv32) returns (outcome: AddOutcome)
      requires Valid() && i == GetIndexFor(hashCode, |buckets|) && node !in cargo
      modifies this
      ensures Valid()
      ensures outcome == NewEntry || outcome == CapacityOverflow
      ensures var h := if old(emptyEntries) == [] then |old(arena)| else old(emptyEntries)[0];
        && h !in old(Entries()) && Entries() == old(Entries()) + {h}
        && cargo == old(cargo)[node := h]
        && arena == (if old(emptyEntries) == [] then old(arena) + [EMPTY_ENTRY] else old(arena))
                    [h := CacheEntry({node}, hashCode)]
        && emptyEntries == (if old(emptyEntries) == [] then [] else old(emptyEntries)[1..])
        && numberOfElements == old(numberOfElements) + 1
      ensures outcome == CapacityOverflow <==>
        old(numberOfElements) + 1 >= old(threshold) && 2 * old(|buckets|) > INT_MAX
      ensures var grown := outcome == NewEntry && old(numberOfElements) + 1 >= old(threshold);
        && NewEntryTable(buckets, old(buckets), hashCode,
                         if old(emptyEntries) == [] then |old(arena)| else old(emptyEntries)[0], arena, grown)
        && threshold == if grown then |buckets| * 3 / 4 else old(threshold)
    {
      if emptyEntries == [] {
        FreshEntry();
      }
      LiveTake(owner, emptyEntries[0], i);
      OpenEntry(i, node, hashCode);
      if numberOfElements >= threshold {
        if 2 * |buckets| > INT_MAX {
          return CapacityOverflow;
        }
        DoublePowerOfTwo(|buckets|);
        Resize(2 * |buckets|);
      }
      return NewEntry;
    }

    /**
      A new entry for the node at the head of bucket i, taken from the head of
      the free list. The count may reach the threshold, so only the table
      invariant holds afterwards.
     */
    method OpenEntry(i: int, node: NodeId, hashCode: bv32)
      requires Valid() && i == GetIndexFor(hashCode, |buckets|) && node !in cargo && emptyEntries != []
      modifies this
      ensures CoreValid() && |buckets| == old(|buckets|) && threshold == old(threshold)
      ensures var h := old(emptyEntries[0]);
        && owner == old(owner)[h := InBucket(i)]
        && buckets == old(buckets)[i := [h] + old(buckets[i])]
        && arena == old(arena)[h := CacheEntry({node}, hashCode)]
        && emptyEntries == old(emptyEntries[1..])
        && cargo == old(cargo)[node := h]
        && numberOfElements == old(numberOfElements) + 1
    {
      var h := emptyEntries[0];
      InsertPreserves(buckets, arena, emptyEntries, owner, cargo, numberOfElements, threshold, node, hashCode);
      arena, owner, cargo, numberOfElements, emptyEntries :=
        arena[h := CacheEntry({node}, hashCode)], owner[h := InBucket(i)], cargo[node := h], numberOfElements + 1,
        emptyEntries[1..];
      buckets := buckets[i := [h] + buckets[i]];
    }

    /** `new CacheEntry()` for an empty free list, viewed as a blank entry pushed onto it. */
    method FreshEntry()
      requires Valid() && emptyEntries == []
      modifies this
      ensures Valid() && buckets == old(buckets) && threshold == old(threshold)
      ensures arena == old(arena) + [EMPTY_ENTRY] && emptyEntries == [|old(arena)|]
      ensures owner == old(owner) + [Free] && Entries() == old(Entries())
      ensures cargo == old(cargo) && numberOfElements == old(numberOfElements)
    {
      GrowPreserves(buckets, arena, emptyEntries, owner, cargo, numberOfElements, threshold);
      assert Live(owner + [Free]) == Live(owner);
      arena, owner, emptyEntries := arena + [EMPTY_ENTRY], owner + [Free], [|arena|];
    }

    /**
      resize: every entry is moved to the head of the bucket of its hash in a
      new table; the threshold becomes 75% of the new capacity.
     */
    method Resize(newCapacity: int)
      requires CoreValid()
      requires IsPowerOfTwo(newCapacity) && INITIAL_CAPACITY <= newCapacity <= INT_MAX
      modifies this
      ensures CoreValid()
      ensures |buckets| == newCapacity && threshold == newCapacity * 3 / 4
      ensures arena == old(arena) && cargo == old(cargo) && emptyEntries == old(emptyEntries)
      ensures numberOfElements == old(numberOfElements) && Entries() == old(Entries())
      ensures buckets == PushChains(EmptyBuckets(newCapacity), old(buckets), arena)
    {
      var newBuckets := Rehash(buckets, arena, owner, emptyEntries, newCapacity);
      var nb := newBuckets[..];
      var newThreshold := newCapacity * 3 / 4;
      RehashDone(nb, buckets, arena, emptyEntries, owner, cargo, numberOfElements, threshold, newThreshold);
      owner := Rehome(owner, arena, |nb|);
      buckets := nb;
      threshold := newThreshold;
    }

    /**
      getBlockerRepresentative: for a node that can be blocked, the least member
      of the entry it matches, and nothing otherwise.
     */
    method GetBlockerRepresentative(node: NodeId, checker: DirectBlockingChecker) returns (r: Option<NodeId>)
      requires Valid()
      ensures !checker.canBeBlocked(node) || Lookup(node, checker).None? ==> r.None?
      ensures checker.canBeBlocked(node) && Lookup(node, checker).Some? ==>
        r == Some(First(arena[Lookup(node, checker).value].nodes))
      ensures r.Some? ==>
        && r.value in Cached() && checker.isBlockedBy(r.value, node)
        && forall m :: m in arena[cargo[r.value]].nodes ==> r.value <= m
    {
      if checker.canBeBlocked(node) {
        var hashCode := checker.blockingHashCode(node);
        var chain := buckets[GetIndexFor(hashCode, |buckets|)];
        var found := FindMatch(chain, arena, hashCode, node, checker);
        if found.Some? {
          return Some(First(arena[chain[found.value]].nodes));
        }
      }
      return None;
    }

    /**
      getPossibleBlockers: for a node that can be blocked, the members of the
      entry it matches whose ids are below its own (the entry's headSet), and
      the empty set otherwise.
     */
    method GetPossibleBlockers(node: NodeId, checker: DirectBlockingChecker) returns (r: set<NodeId>)
      requires Valid()
      ensures !checker.canBeBlocked(node) || Lookup(node, checker).None? ==> r == {}
      ensures checker.canBeBlocked(node) && Lookup(node, checker).Some? ==>
        r == Below(arena[Lookup(node, checker).value].nodes, node)
      ensures forall m :: m in r ==> m < node && m in Cached()
    {
      if checker.canBeBlocked(node) {
        var hashCode := checker.blockingHashCode(node);
        var chain := buckets[GetIndexFor(hashCode, |buckets|)];
        var found := FindMatch(chain, arena, hashCode, node, checker);
        if found.Some? {
          return Below(arena[chain[found.value]].nodes, node);
        }
      }
      return {};
    }
  }
}
