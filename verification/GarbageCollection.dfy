/**
 What the broker's garbage collection works on and what it is to achieve: the parents in order of their
 last use, those that may go, and how few of them make room.
 */
module GarbageCollection {
  import opened Wrappers
  import opened Names
  import opened StoreParents
  import opened Sums

  datatype Capacity = Capacity(quota: int, taken: int, reclaimable: int, free: int, floor: int, reserve: int) {
    /** Quota and host floor hold with this much allocated. */
    predicate Room(bytes: int) {
      bytes + reserve <= quota && free - reserve >= floor
    }
  }

  /** The parent is not in use and was last used no later than the cutoff. */
  predicate MayGo(m: Metadata, active: set<Key>, cutoff: int) {
    m.key !in active && m.lastUsed <= cutoff
  }

  function Candidates(listing: seq<Metadata>, active: set<Key>, cutoff: int): seq<Metadata> {
    if listing == [] then []
    else
      var n := |listing| - 1;
      Candidates(listing[..n], active, cutoff) + if MayGo(listing[n], active, cutoff) then [listing[n]] else []
  }

  function BytesOf(s: seq<Metadata>): int {
    if s == [] then 0 else BytesOf(s[..|s| - 1]) + s[|s| - 1].bytes
  }

  ghost function KeysOf(s: seq<Metadata>): set<Key> {
    set m | m in s :: m.key
  }

  /** n is the least number of candidates whose removal makes room. */
  ghost predicate Shortest(c: Capacity, candidates: seq<Metadata>, n: nat) {
    && 0 < n <= |candidates| && c.Room(c.taken - BytesOf(candidates[..n]))
    && forall k | 0 <= k < n :: !c.Room(c.taken - BytesOf(candidates[..k]))
  }

  /** Metadata lies in the directory of its own key. */
  ghost predicate KeysNamed(parents: map<Key, ParentDir>) {
    forall k | k in parents && parents[k].metadata.Some? :: parents[k].metadata.value.key == k
  }

  /** Every parent that is listed resolves, and its metadata tell the true size of its image. */
  ghost predicate WellFormed(provider: Name, parents: map<Key, ParentDir>) {
    forall k | k in parents && parents[k].metadata.Some? ::
      && Resolve(provider, parents, k) == Valid(parents[k].metadata.value)
      && parents[k].metadata.value.bytes == parents[k].image.value.bytes
  }

  /** The parents with metadata, each once, by their last use. */
  ghost predicate IsListing(parents: map<Key, ParentDir>, listing: seq<Metadata>) {
    && (forall m | m in listing :: m.key in parents && parents[m.key].metadata == Some(m))
    && (forall k | k in parents && parents[k].metadata.Some? :: parents[k].metadata.value in listing)
    && (forall i, j | 0 <= i < j < |listing| :: listing[i].key != listing[j].key)
    && ByAge(listing)
  }

  predicate ByAge(s: seq<Metadata>) {
    forall i, j | 0 <= i < j < |s| :: s[i].lastUsed <= s[j].lastUsed
  }

  function ImageBytes(parents: map<Key, ParentDir>): map<Key, int> {
    map k | k in parents && parents[k].image.Some? :: parents[k].image.value.bytes
  }

  function StagingBytes(pending: map<Key, PendingDir>): map<Key, int> {
    map k | k in pending && pending[k].staging.Some? :: pending[k].staging.value.bytes
  }

  /** What `status` finds reclaimable, parent by parent. */
  function ReclaimableBytes(parents: map<Key, ParentDir>, active: set<Key>, cutoff: int): map<Key, int> {
    map k | k in parents && parents[k].metadata.Some? && MayGo(parents[k].metadata.value, active, cutoff) :: parents[k].metadata.value.bytes
  }

  // ----- Facts about candidates ----------------------------------------------------------------

  lemma {:induction false} CandidatesAre(listing: seq<Metadata>, active: set<Key>, cutoff: int)
    ensures forall m :: m in Candidates(listing, active, cutoff) <==> m in listing && MayGo(m, active, cutoff)
  {
    if listing != [] {
      var n := |listing| - 1;
      CandidatesAre(listing[..n], active, cutoff);
      assert listing == listing[..n] + [listing[n]];
    }
  }

  lemma {:induction false} CandidatesGrow(listing: seq<Metadata>, active: set<Key>, cutoff: int, i: nat)
    requires i <= |listing|
    ensures Candidates(listing[..i], active, cutoff) <= Candidates(listing, active, cutoff)
    decreases |listing| - i
  {
    if i < |listing| {
      CandidatesGrow(listing, active, cutoff, i + 1);
      assert listing[..i + 1][..i] == listing[..i];
    } else {
      assert listing[..i] == listing;
    }
  }

  /** The candidates keep the order of the listing. */
  lemma {:induction false} CandidatesInOrder(listing: seq<Metadata>, active: set<Key>, cutoff: int)
    requires ByAge(listing)
    ensures ByAge(Candidates(listing, active, cutoff))
  {
    if listing != [] {
      var n := |listing| - 1;
      CandidatesInOrder(listing[..n], active, cutoff);
      CandidatesAre(listing[..n], active, cutoff);
      var rest := Candidates(listing[..n], active, cutoff);
      forall i | 0 <= i < |rest| ensures rest[i].lastUsed <= listing[n].lastUsed {
        assert rest[i] in rest;
      }
    }
  }

  lemma CandidateBytes(listing: seq<Metadata>, active: set<Key>, cutoff: int)
    requires listing != []
    ensures
      var n := |listing| - 1;
      BytesOf(Candidates(listing, active, cutoff)) ==
      BytesOf(Candidates(listing[..n], active, cutoff)) + if MayGo(listing[n], active, cutoff) then listing[n].bytes else 0
  {
    var n := |listing| - 1;
    var kept := Candidates(listing[..n], active, cutoff);
    assert Candidates(listing, active, cutoff) == if MayGo(listing[n], active, cutoff) then kept + [listing[n]] else kept;
    assert (kept + [listing[n]])[..|kept|] == kept;
  }

  lemma ListingWithoutLast(parents: map<Key, ParentDir>, listing: seq<Metadata>)
    requires KeysNamed(parents) && IsListing(parents, listing) && listing != []
    ensures
      var n := |listing| - 1;
      KeysNamed(parents - {listing[n].key}) && IsListing(parents - {listing[n].key}, listing[..n])
  {
    var n := |listing| - 1;
    var rest := parents - {listing[n].key};
    assert listing == listing[..n] + [listing[n]];
    forall k | k in rest && rest[k].metadata.Some? ensures rest[k].metadata.value in listing[..n] {
      assert rest[k].metadata.value in listing && rest[k].metadata.value != listing[n];
    }
  }

  /** No two parents were last used at the same time. */
  ghost predicate DistinctUses(parents: map<Key, ParentDir>) {
    forall j, k | j in parents && k in parents && parents[j].metadata.Some? && parents[k].metadata.Some?
                  && parents[j].metadata.value.lastUsed == parents[k].metadata.value.lastUsed :: j == k
  }

  lemma SameLast(parents: map<Key, ParentDir>, a: seq<Metadata>, b: seq<Metadata>)
    requires KeysNamed(parents) && DistinctUses(parents) && IsListing(parents, a) && IsListing(parents, b)
    ensures |a| > 0 <==> |b| > 0
    ensures |a| > 0 && |b| > 0 ==> a[|a| - 1] == b[|b| - 1]
  {
    if |a| > 0 { Listed(parents, a, b, |a| - 1); }
    if |b| > 0 { Listed(parents, b, a, |b| - 1); }
  }

  lemma Listed(parents: map<Key, ParentDir>, a: seq<Metadata>, b: seq<Metadata>, i: nat)
    requires IsListing(parents, a) && IsListing(parents, b) && i < |a|
    ensures a[i] in b && |b| > 0 && a[i].lastUsed <= b[|b| - 1].lastUsed
    ensures b[|b| - 1] in b
  {
    assert a[i] in a;
    assert parents[a[i].key].metadata.value in b;
    var j :| 0 <= j < |b| && b[j] == a[i];
  }

  /** Then there is one listing only. */
  lemma {:induction false} OneListing(parents: map<Key, ParentDir>, a: seq<Metadata>, b: seq<Metadata>)
    requires KeysNamed(parents) && DistinctUses(parents) && IsListing(parents, a) && IsListing(parents, b)
    ensures a == b
    decreases |a|
  {
    SameLast(parents, a, b);
    if a != [] {
      hide KeysNamed, IsListing;
      var m, k, l := a[|a| - 1], |a| - 1, |b| - 1;
      ListingWithoutLast(parents, a);
      ListingWithoutLast(parents, b);
      OneListing(parents - {m.key}, a[..k], b[..l]);
      assert a == a[..k] + [m] && b == b[..l] + [m];
    }
  }

  lemma ReclaimableWithout(parents: map<Key, ParentDir>, m: Metadata, active: set<Key>, cutoff: int)
    requires m.key in parents && parents[m.key].metadata == Some(m)
    ensures SumOver(ReclaimableBytes(parents, active, cutoff)) ==
              SumOver(ReclaimableBytes(parents - {m.key}, active, cutoff)) + if MayGo(m, active, cutoff) then m.bytes else 0
  {
    var all, less := ReclaimableBytes(parents, active, cutoff), ReclaimableBytes(parents - {m.key}, active, cutoff);
    if MayGo(m, active, cutoff) {
      SumWithout(all, m.key);
      assert all - {m.key} == less;
    } else {
      assert all == less;
    }
  }

  /** The same total, counted along the listing or over the directories, as `status` counts it. */
  lemma {:induction false} ReclaimableAgrees(parents: map<Key, ParentDir>, listing: seq<Metadata>, active: set<Key>, cutoff: int)
    requires KeysNamed(parents) && IsListing(parents, listing)
    ensures BytesOf(Candidates(listing, active, cutoff)) == SumOver(ReclaimableBytes(parents, active, cutoff))
    decreases |listing|
  {
    if listing == [] {
      assert ReclaimableBytes(parents, active, cutoff) == map[];
    } else {
      var n := |listing| - 1;
      assert listing[n] in listing;
      ListingWithoutLast(parents, listing);
      CandidateBytes(listing, active, cutoff);
      hide *;
      ReclaimableAgrees(parents - {listing[n].key}, listing[..n], active, cutoff);
      ReclaimableWithout(parents, listing[n], active, cutoff);
    }
  }

  /** Removing a parent takes the bytes of its image off the total. */
  lemma ImageBytesWithout(parents: map<Key, ParentDir>, k: Key)
    requires k in parents && parents[k].image.Some?
    ensures SumOver(ImageBytes(parents - {k})) == SumOver(ImageBytes(parents)) - parents[k].image.value.bytes
  {
    SumWithout(ImageBytes(parents), k);
    assert ImageBytes(parents) - {k} == ImageBytes(parents - {k});
  }

  // ----- What a pass means for the parents --------------------------------------------------

  /** Nothing refers to the parent, and it was last used before the cutoff. */
  ghost predicate Expired(parents: map<Key, ParentDir>, active: set<Key>, cutoff: int, k: Key) {
    k in parents && parents[k].metadata.Some? && k !in active && parents[k].metadata.value.lastUsed <= cutoff
  }

  /** With the first candidates gone: they had expired, and all that has expired and is left was used no earlier. */
  lemma OldestGo(before: map<Key, ParentDir>, after: map<Key, ParentDir>, listing: seq<Metadata>, active: set<Key>, cutoff: int, n: nat)
    requires KeysNamed(before) && IsListing(before, listing) && n <= |Candidates(listing, active, cutoff)|
    requires after == before - KeysOf(Candidates(listing, active, cutoff)[..n])
    ensures forall k | k in before && k !in after :: Expired(before, active, cutoff, k)
    ensures forall k, l | Expired(before, active, cutoff, k) && k !in after && l in after && Expired(before, active, cutoff, l) ::
              before[k].metadata.value.lastUsed <= before[l].metadata.value.lastUsed
    ensures n == |Candidates(listing, active, cutoff)| ==> forall k | Expired(before, active, cutoff, k) :: k !in after
  {
    var candidates := Candidates(listing, active, cutoff);
    CandidatesAre(listing, active, cutoff);
    CandidatesInOrder(listing, active, cutoff);
    forall k | k in before && k !in after
      ensures Expired(before, active, cutoff, k) && before[k].metadata.value in candidates[..n]
    {
      var m :| m in candidates[..n] && m.key == k;
      assert m in candidates;
    }
    forall l | Expired(before, active, cutoff, l) ensures before[l].metadata.value in candidates {
    }
    forall k, l | k in before && k !in after && l in after && Expired(before, active, cutoff, l)
      ensures before[k].metadata.value.lastUsed <= before[l].metadata.value.lastUsed
    {
      var i :| 0 <= i < n && candidates[i] == before[k].metadata.value;
      var j :| 0 <= j < |candidates| && candidates[j] == before[l].metadata.value;
      assert candidates[j] !in candidates[..n];
    }
    if n == |candidates| {
      assert candidates[..n] == candidates;
      forall k | Expired(before, active, cutoff, k) ensures k in KeysOf(candidates) {
        assert before[k].metadata.value in candidates;
      }
    }
  }

  /** The last one taken was needed: with it in place there would be no room. */
  lemma LastWasNeeded(c: Capacity, candidates: seq<Metadata>, n: nat)
    requires Shortest(c, candidates, n)
    ensures
      var left := c.taken - BytesOf(candidates[..n]);
      && left + c.reserve <= c.quota && c.free - c.reserve >= c.floor
      && left + candidates[n - 1].bytes + c.reserve > c.quota
  {
    assert candidates[..n][..n - 1] == candidates[..n - 1];
  }

  // ----- Sorting by age ------------------------------------------------------------------------

  function Insert(m: Metadata, s: seq<Metadata>): (r: seq<Metadata>)
    ensures forall l :: l in r <==> l == m || l in s
  {
    if s == [] || m.lastUsed <= s[0].lastUsed then [m] + s else [s[0]] + Insert(m, s[1..])
  }

  function SortByAge(s: seq<Metadata>): (r: seq<Metadata>)
    ensures forall l :: l in r <==> l in s
  {
    if s == [] then [] else Insert(s[0], SortByAge(s[1..]))
  }

  predicate DistinctKeys(s: seq<Metadata>) {
    forall i, j | 0 <= i < j < |s| :: s[i].key != s[j].key
  }

  lemma {:induction false} InsertSorts(m: Metadata, s: seq<Metadata>)
    requires ByAge(s)
    ensures ByAge(Insert(m, s))
    ensures DistinctKeys(s) && (forall l | l in s :: l.key != m.key) ==> DistinctKeys(Insert(m, s))
  {
    if s != [] && s[0].lastUsed < m.lastUsed {
      InsertSorts(m, s[1..]);
      var r := Insert(m, s[1..]);
      forall i | 0 <= i < |r| ensures s[0].lastUsed <= r[i].lastUsed {
        assert r[i] in r;
      }
      if DistinctKeys(s) && forall l | l in s :: l.key != m.key {
        forall i | 0 <= i < |r| ensures s[0].key != r[i].key {
          assert r[i] in r && s[0] in s;
          assert r[i] in s[1..] ==> exists k :: 1 <= k < |s| && s[k] == r[i];
        }
      }
    }
  }

  lemma {:induction false} SortSorts(s: seq<Metadata>)
    ensures ByAge(SortByAge(s)) && (DistinctKeys(s) ==> DistinctKeys(SortByAge(s)))
  {
    if s != [] {
      SortSorts(s[1..]);
      InsertSorts(s[0], SortByAge(s[1..]));
    }
  }
}
