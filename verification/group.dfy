/** The group allocator of src/group.ts: shuffle the users, then fill
    ceil(n / size) groups first-fit, scanning from group 0 for every user. */
module GroupDistribution {
  import opened Types

  function Min(a: int, b: int): int { if a <= b then a else b }

  /** `j * size`: the index in the user list of the first user of group `j`
      when every group before it holds `size` users. Written as repeated
      addition so that proofs about it stay linear. */
  function Offset(j: nat, size: nat): nat
  {
    if j == 0 then 0 else Offset(j - 1, size) + size
  }

  lemma {:induction false} OffsetIsProduct(j: nat, size: nat)
    ensures Offset(j, size) == j * size
  {
    if j > 0 {
      OffsetIsProduct(j - 1, size);
      assert j * size == (j - 1) * size + size;
    }
  }

  /** A later group starts at least one whole group further on. */
  lemma {:induction false} OffsetMono(i: nat, j: nat, size: nat)
    requires i < j
    ensures Offset(i, size) + size <= Offset(j, size)
  {
    if i + 1 < j {
      OffsetMono(i, j - 1, size);
    }
  }

  /** `Math.ceil(n / size)` in integer arithmetic: the least number of
      groups of `size` users that holds `n` users. */
  function GroupCount(n: nat, size: nat): (g: nat)
    requires size >= 1
    ensures Offset(g, size) >= n
    ensures Offset(g, size) < n + size
    ensures g == 0 <==> n == 0
  {
    CeilDiv(n, size);
    (n + size - 1) / size
  }

  lemma CeilDiv(n: nat, size: nat)
    requires size >= 1
    ensures (n + size - 1) / size >= 0
    ensures Offset((n + size - 1) / size, size) >= n
    ensures Offset((n + size - 1) / size, size) < n + size
    ensures (n + size - 1) / size == 0 <==> n == 0
  {
    var q := (n + size - 1) / size;
    assert q * size + (n + size - 1) % size == n + size - 1;
    OffsetIsProduct(q, size);
    if q > 0 { OffsetMono(0, q, size); }
  }

  /** The users among the first `k` of `users` that belong to group `j`
      when groups are consecutive runs of `size` users. */
  function GroupSlice(users: seq<UserRecord>, size: nat, k: nat, j: nat): Group
    requires k <= |users|
  {
    users[Min(Offset(j, size), k)..Min(Offset(j, size) + size, k)]
  }

  /** Two group counts that both satisfy the ceiling bounds are equal. */
  lemma CountUnique(n: nat, size: nat, g1: nat, g2: nat)
    requires Offset(g1, size) >= n && Offset(g1, size) < n + size
    requires Offset(g2, size) >= n && Offset(g2, size) < n + size
    ensures g1 == g2
  {
    if g1 < g2 { OffsetMono(g1, g2, size); }
    if g2 < g1 { OffsetMono(g2, g1, size); }
  }

  /** Reference definition of the allocation: `users` cut, in order, into
      runs of `size`, one per group; the last run holds what is left. */
  function Chunks(users: seq<UserRecord>, size: nat): seq<Group>
    requires size >= 1
    decreases |users|
  {
    if users == [] then []
    else
      var cut := Min(size, |users|);
      [users[..cut]] + Chunks(users[cut..], size)
  }

  /** The reference allocation has `ceil(n / size)` groups. */
  lemma {:induction false} ChunkCount(users: seq<UserRecord>, size: nat)
    requires size >= 1
    ensures |Chunks(users, size)| == GroupCount(|users|, size)
    decreases |users|
  {
    if users != [] {
      var cut := Min(size, |users|);
      ChunkCount(users[cut..], size);
      var g := GroupCount(|users| - cut, size);
      assert Offset(g + 1, size) == Offset(g, size) + size;
      CountUnique(|users|, size, g + 1, GroupCount(|users|, size));
    }
  }

  /** Every group of the reference allocation holds 1 to `size` users. */
  lemma {:induction false} ChunkCapacity(users: seq<UserRecord>, size: nat, j: nat)
    requires size >= 1 && j < |Chunks(users, size)|
    ensures 1 <= |Chunks(users, size)[j]| <= size
    decreases |users|
  {
    if j > 0 {
      ChunkCapacity(users[Min(size, |users|)..], size, j - 1);
    }
  }

  /** All groups but the last hold exactly `size` users; the last holds
      `n - (g - 1) * size`. */
  lemma {:induction false} ChunkFill(users: seq<UserRecord>, size: nat, j: nat)
    requires size >= 1 && j < |Chunks(users, size)|
    ensures j < |Chunks(users, size)| - 1 ==> |Chunks(users, size)[j]| == size
    ensures j == |Chunks(users, size)| - 1 ==> |Chunks(users, size)[j]| == |users| - Offset(j, size)
    decreases |users|
  {
    var cut := Min(size, |users|);
    if j > 0 {
      ChunkFill(users[cut..], size, j - 1);
    } else if |users| > size {
      assert Chunks(users[cut..], size) != [];
    }
  }

  /** Member `m` of group `j` of the reference allocation is user
      `j * size + m` of the input. */
  lemma {:induction false} ChunkAt(users: seq<UserRecord>, size: nat, j: nat, m: nat)
    requires size >= 1
    requires j < |Chunks(users, size)| && m < |Chunks(users, size)[j]|
    ensures Offset(j, size) + m < |users|
    ensures Chunks(users, size)[j][m] == users[Offset(j, size) + m]
    decreases |users|
  {
    if j > 0 {
      ChunkAt(users[Min(size, |users|)..], size, j - 1, m);
    }
  }

  /** The groups of the reference allocation, read in order, give back the input list. */
  lemma {:induction false} FlattenChunks(users: seq<UserRecord>, size: nat)
    requires size >= 1
    ensures Flatten(Chunks(users, size)) == users
    decreases |users|
  {
    if users != [] {
      var cut := Min(size, |users|);
      FlattenChunks(users[cut..], size);
      var groups := Chunks(users, size);
      assert groups[1..] == Chunks(users[cut..], size);
      assert users[..cut] + users[cut..] == users;
    }
  }

  /** Group `j` of the reference allocation is the run of users starting
      at `j * size`, as DistributeUsers sees it once every user is placed. */
  lemma {:induction false} ChunkIsSlice(users: seq<UserRecord>, size: nat, j: nat)
    requires size >= 1 && j < |Chunks(users, size)|
    ensures Chunks(users, size)[j] == GroupSlice(users, size, |users|, j)
    decreases |users|
  {
    if j > 0 {
      assert |users| > size;
      var rest := users[size..];
      ChunkIsSlice(rest, size, j - 1);
      var a := Offset(j - 1, size);
      var c, d := Min(a, |rest|), Min(a + size, |rest|);
      assert Chunks(users, size)[j] == Chunks(rest, size)[j - 1];
      assert Chunks(users, size)[j] == rest[c..d];
      assert Offset(j, size) == size + a;
      assert Min(Offset(j, size), |users|) == size + c;
      assert Min(Offset(j, size) + size, |users|) == size + d;
      SliceOfSlice(users, size, c, d);
    }
  }

  lemma SliceOfSlice(s: seq<UserRecord>, k: nat, c: nat, d: nat)
    requires k <= |s| && c <= d <= |s| - k
    ensures s[k..][c..d] == s[k + c..k + d]
  {
  }

  /** One step of DistributeUsers: when user `k` falls in group `i`, that
      group gains it at its end and no other group changes. */
  lemma SliceStep(users: seq<UserRecord>, size: nat, k: nat, i: nat)
    requires size >= 1 && k < |users|
    requires Offset(i, size) <= k < Offset(i, size) + size
    ensures GroupSlice(users, size, k + 1, i) == GroupSlice(users, size, k, i) + [users[k]]
    ensures forall j: nat :: j != i ==> GroupSlice(users, size, k + 1, j) == GroupSlice(users, size, k, j)
  {
    forall j: nat | j != i
      ensures GroupSlice(users, size, k + 1, j) == GroupSlice(users, size, k, j)
    {
      if j < i {
        OffsetMono(j, i, size);
      } else {
        OffsetMono(i, j, size);
      }
    }
  }

  /** The state of DistributeUsers once the first `k` users are placed:
      every group holds exactly its run of them. */
  ghost predicate Placed(groups: seq<Group>, users: seq<UserRecord>, size: nat, k: nat)
    requires k <= |users|
  {
    forall j :: 0 <= j < |groups| ==> groups[j] == GroupSlice(users, size, k, j)
  }

  /** Pushing user `k` into the first group that is not full keeps every
      group equal to its run of the first `k + 1` users. */
  lemma PlaceStep(groups: seq<Group>, users: seq<UserRecord>, size: nat, k: nat, i: nat)
    requires size >= 1 && k < |users| && i < |groups|
    requires Placed(groups, users, size, k)
    requires Offset(i, size) <= k && |groups[i]| < size
    ensures Placed(groups[i := groups[i] + [users[k]]], users, size, k + 1)
  {
    assert groups[i] == GroupSlice(users, size, k, i);
    SliceStep(users, size, k, i);
  }

  /** A full group seen while placing user `k` lies wholly before it, so
      the next group starts no later than `k`. */
  lemma FullStep(groups: seq<Group>, users: seq<UserRecord>, size: nat, k: nat, i: nat)
    requires size >= 1 && k < |users| && i < |groups|
    requires Placed(groups, users, size, k)
    requires Offset(i, size) <= k && |groups[i]| >= size
    ensures Offset(i + 1, size) <= k
  {
  }

  /** The sizes of all groups of the reference allocation at once. */
  lemma {:induction false} ChunkSizes(users: seq<UserRecord>, size: nat)
    requires size >= 1
    ensures |Chunks(users, size)| == GroupCount(|users|, size)
    ensures forall j :: 0 <= j < |Chunks(users, size)| ==> 1 <= |Chunks(users, size)[j]| <= size
    ensures forall j :: 0 <= j < |Chunks(users, size)| - 1 ==> |Chunks(users, size)[j]| == size
    ensures |Chunks(users, size)| > 0 ==>
      |Chunks(users, size)[|Chunks(users, size)| - 1]| == |users| - Offset(|Chunks(users, size)| - 1, size)
  {
    ChunkCount(users, size);
    forall j | 0 <= j < |Chunks(users, size)|
      ensures 1 <= |Chunks(users, size)[j]| <= size
      ensures j < |Chunks(users, size)| - 1 ==> |Chunks(users, size)[j]| == size
      ensures j == |Chunks(users, size)| - 1 ==> |Chunks(users, size)[j]| == |users| - Offset(j, size)
    {
      ChunkCapacity(users, size, j);
      ChunkFill(users, size, j);
    }
  }

  /** Once every user is placed, the groups DistributeUsers holds are the
      reference allocation, with all its properties. */
  lemma {:induction false} SlicesAreChunks(users: seq<UserRecord>, size: nat, groups: seq<Group>)
    requires size >= 1 && |groups| == GroupCount(|users|, size)
    requires Placed(groups, users, size, |users|)
    ensures groups == Chunks(users, size)
    ensures Flatten(groups) == users
    ensures forall j :: 0 <= j < |groups| ==> 1 <= |groups[j]| <= size
    ensures forall j :: 0 <= j < |groups| - 1 ==> |groups[j]| == size
  {
    ChunkSizes(users, size);
    forall j | 0 <= j < |groups| ensures groups[j] == Chunks(users, size)[j] {
      ChunkIsSlice(users, size, j);
    }
    FlattenChunks(users, size);
  }

  /** `distributeUsers`: creates ceil(n / size) empty groups, then puts each
      user, in list order, into the first group (from index 0) that is not
      full. The result is the reference allocation: the input cut into
      consecutive runs of `size`. */
  method DistributeUsers(userList: seq<UserRecord>, size: nat) returns (groups: seq<Group>)
    requires size >= 1
    ensures groups == Chunks(userList, size)
    ensures Flatten(groups) == userList
    ensures |groups| == GroupCount(|userList|, size)
    ensures forall j :: 0 <= j < |groups| ==> 1 <= |groups[j]| <= size
    ensures forall j :: 0 <= j < |groups| - 1 ==> |groups[j]| == size
  {
    var totalGroupCount := GroupCount(|userList|, size);
    var groupList := new Group[totalGroupCount](_ => []);

    for k := 0 to |userList|
      invariant Placed(groupList[..], userList, size, k)
    {
      var user := userList[k];
      for i := 0 to groupList.Length
        invariant Offset(i, size) <= k
        invariant Placed(groupList[..], userList, size, k)
      {
        var isGroupFull := |groupList[i]| >= size;
        if !isGroupFull {
          ghost var before := groupList[..];
          PlaceStep(before, userList, size, k, i);
          groupList[i] := groupList[i] + [user];
          assert groupList[..] == before[i := before[i] + [user]];
          break;
        }
        FullStep(groupList[..], userList, size, k, i);
      }
    }

    groups := groupList[..];
    SlicesAreChunks(userList, size, groups);
  }

  /** `shuffleUsers`: a fresh copy of the list, put in some order. The
      random comparator is modelled as a nondeterministic choice of swaps,
      which reaches every order; the input list is a value and is left as it was. */
  method ShuffleUsers(userList: seq<UserRecord>) returns (shuffled: seq<UserRecord>)
    ensures multiset(shuffled) == multiset(userList)
  {
    var copy := new UserRecord[|userList|](k requires 0 <= k < |userList| => userList[k]);
    assert copy[..] == userList;
    for i := 0 to copy.Length
      invariant multiset(copy[..]) == multiset(userList)
    {
      var j :| i <= j < copy.Length;
      copy[i], copy[j] := copy[j], copy[i];
    }
    shuffled := copy[..];
  }

  /** What one topic's group list is: the reference allocation of some
      reordering of the users. */
  ghost predicate IsGrouping(userList: seq<UserRecord>, size: nat, groups: seq<Group>)
    requires size >= 1
  {
    multiset(Flatten(groups)) == multiset(userList) && groups == Chunks(Flatten(groups), size)
  }

  /** Every grouping has ceil(n / size) groups, none over `size`, all but
      the last full, and counts every user as often as the input does. */
  lemma GroupingFacts(userList: seq<UserRecord>, size: nat, groups: seq<Group>)
    requires size >= 1 && IsGrouping(userList, size, groups)
    ensures |groups| == GroupCount(|userList|, size)
    ensures forall j :: 0 <= j < |groups| ==> 1 <= |groups[j]| <= size
    ensures forall j :: 0 <= j < |groups| - 1 ==> |groups[j]| == size
    ensures |groups| > 0 ==> |groups[|groups| - 1]| == |userList| - Offset(|groups| - 1, size)
    ensures forall u :: Occurrences(groups, u) == multiset(userList)[u]
  {
    assert |multiset(Flatten(groups))| == |multiset(userList)|;
    ChunkSizes(Flatten(groups), size);
    forall u ensures Occurrences(groups, u) == multiset(userList)[u] {
      OccurrencesFlatten(groups, u);
    }
  }

  /** A user listed once lands in exactly one group of the topic. */
  lemma UserInExactlyOneGroup(userList: seq<UserRecord>, size: nat, groups: seq<Group>, u: UserRecord)
    requires size >= 1 && IsGrouping(userList, size, groups)
    requires multiset(userList)[u] == 1
    ensures exists j :: 0 <= j < |groups| && u in groups[j]
    ensures forall j1, j2 :: 0 <= j1 < |groups| && 0 <= j2 < |groups| && u in groups[j1] && u in groups[j2] ==> j1 == j2
  {
    GroupingFacts(userList, size, groups);
    OccurrencesOnce(groups, u);
  }

  /** `generateTopicUserGroups`: shuffle, then distribute. */
  method GenerateTopicUserGroups(userList: seq<UserRecord>, size: nat) returns (groups: seq<Group>)
    requires size >= 1
    ensures IsGrouping(userList, size, groups)
    ensures |groups| == GroupCount(|userList|, size)
    ensures forall j :: 0 <= j < |groups| ==> 1 <= |groups[j]| <= size
    ensures forall u :: Occurrences(groups, u) == multiset(userList)[u]
  {
    var shuffledUserList := ShuffleUsers(userList);
    groups := DistributeUsers(shuffledUserList, size);
    GroupingFacts(userList, size, groups);
  }
}
