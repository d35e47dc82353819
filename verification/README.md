# group-distributor, modelled in Dafny

group-distributor reads a list of participants from a CSV file. For each of
several topics (sessions), it splits the whole list into groups of a fixed
size. The list of all topics' groups then goes to a CSV writer,
`asyncWriteToCsvFile`, which is not part of this model. This project
models the allocator of `src/group.ts` and the topic loop of `main` in
`src/index.ts`. It proves what the allocator guarantees.

- `types.dfy` (module `Types`): `UserRecord`, `Group` (a list of users),
  `Option` for JavaScript's `undefined`, and two views of a group list:
  `Flatten` (all groups read in order) and `Occurrences` (how often a user
  appears, summed over the groups).
- `group.dfy` (module `GroupDistribution`) covers `distributeUsers`,
  `shuffleUsers` and `generateTopicUserGroups`.
  - `DistributeUsers` is imperative, like the source. It builds an array of
    `ceil(n / size)` empty groups. A `push` becomes the reassignment of one
    array element. The nested loops scan from group 0 and `break` after the
    first push.
  - The method is proved equal to `Chunks`, the reference definition: the
    input cut, in order, into consecutive runs of `size`. The lemmas about
    `Chunks` give the group count, the capacity bound, the sizes of full
    groups and of the last group, each user's position, and the fact that
    the groups concatenate back to the input.
  - `Offset(j, size)` is `j * size` (lemma `OffsetIsProduct`), the
    position of the first user of group `j`. It is written as repeated
    addition so that the proofs stay in linear arithmetic.
  - `ShuffleUsers` copies the list into an array and reorders it by swaps
    chosen nondeterministically. It promises only that the result is a
    permutation of the input.
  - `IsGrouping` says what one topic's result is: the reference allocation
    of some permutation of the users.
- `topics.dfy` (module `TopicLoop`): `BuildTopicList` is the loop of `main`.
  It runs once per topic and appends each topic's groups to `topicList`.

The group size is the constant `DEFAULT_GROUP_SIZE`, whose file
(the `./constants` module) is not part of this model. It appears as a parameter
`size >= 1` (`defaultGroupSize` in the topic loop). The `-g` group size,
the `-o` overlap flag and the `-l`/`-d` policies end up only in an options
object. `main` builds that object and hands it to `generateTopicUserGroups`,
which takes only the user list (`src/group.ts:8-10`). So none of these
values affect the result. In the model the options object is a ghost value.
`BuildTopicList` records its `prevGroupList` field for each iteration in a
ghost output `prevs`, so that its contract can say what was handed over.
That value is computed by the helper `PrevGroupList`, the expression
`overlap ? topicList[i - 1] : undefined` of `src/index.ts:59-61`.
The groupings in its contract depend only on `defaultGroupSize`.

The code places users purely first-fit: it has no department or level
policy, no history of earlier pairings and no fallback in reverse order.
The model follows the code. As a consequence, only the last group of a
topic can be short, and no group is ever empty.

`BuildTopicList` keeps `topicList` as a sequence that only grows by
appending. Entry `t` is the result of iteration `t`. The `prevGroupList`
handed over at iteration `t` equals the final entry `t - 1`, so later
iterations never change an earlier entry.

## Model

| member | source | states |
|---|---|---|
| GroupDistribution.GroupCount | src/group.ts:29 | the group count `g` is `ceil(n / size)`: `g * size >= n` and `g * size < n + size`; it is zero exactly when there are no users |
| GroupDistribution.ChunkCount | src/group.ts:29-31 | the reference allocation, which takes `size` users at a time until none are left, has exactly `ceil(n / size)` groups |
| GroupDistribution.ChunkCapacity | src/group.ts:37-40 | every group of the reference allocation holds at least 1 and at most `size` users |
| GroupDistribution.ChunkFill | src/group.ts:29-41 | every group but the last holds exactly `size` users; the last holds `n - (g - 1) * size` |
| GroupDistribution.ChunkAt | src/group.ts:33-44 | member `m` of group `j` is user `j * size + m` of the input, so users keep their list order inside and across groups |
| GroupDistribution.FlattenChunks | src/group.ts:33-44 | reading the groups in order gives back the input list exactly |
| GroupDistribution.ChunkIsSlice | src/group.ts:34-41 | group `j` of the reference allocation is exactly the run of users that first-fit puts in array slot `j`: users `j * size` up to `j * size + size`, cut at the end of the list |
| GroupDistribution.PlaceStep | src/group.ts:37-41 | pushing user `k` into a group that is below `size` and starts no later than `k` keeps every group equal to its run of the first `k + 1` users, and changes no other group |
| GroupDistribution.DistributeUsers | src/group.ts:28-47 | the first-fit fill returns exactly the reference allocation; its groups concatenate to the input; there are `ceil(n / size)` groups; none is empty and none exceeds `size` (a user goes only into a group below `size`, and a non-full group always exists) |
| GroupDistribution.ShuffleUsers | src/group.ts:24-26 | the shuffled list is a permutation of the input (same multiset of users); the input list is not changed |
| GroupDistribution.GroupingFacts | src/group.ts:8-13 | every topic result has `ceil(n / size)` groups, each of 1 to `size` users, all but the last full, the last holding `n - (g - 1) * size`, and counts each user exactly as often as the input does |
| GroupDistribution.UserInExactlyOneGroup | src/group.ts:33-44 | a user listed once in the input is in exactly one group of the result |
| GroupDistribution.GenerateTopicUserGroups | src/group.ts:8-13 | shuffle then distribute: the result is the reference allocation of a permutation of the users, with `ceil(n / size)` groups of 1 to `size` users, and covers every user as often as the input lists them |
| TopicLoop.BuildTopicList | src/index.ts:55-66 | `topicList` gets one entry per topic, none when the count is 0 or less; each entry is a grouping of the full, unchanged user list with `ceil(n / size)` groups of 1 to `size` users covering every user; the `prevGroupList` handed over at iteration `t` is topic `t - 1`'s groups exactly when overlap is on and `t >= 1`, and `undefined` otherwise (`topicList[-1]` is `undefined` at `t = 0`); since it equals the final entry `t - 1`, no iteration changes an earlier entry; the options have no effect on the groupings |

## Left out

- `src/file.ts` (CSV reading through `csv-parse`, streams, paths) and `asyncWriteToCsvFile` are I/O. `asyncWriteToCsvFile` is not part of this model.
- The command line (`commander`), the `parseInt` of the options, the `--verbose` output and the top-level `await main()` are left out. The topic count is a plain integer. A NaN count makes `i < topicCount` false, so it behaves like 0: the caller passes 0 for it. A non-integer count is not modelled.
- ShuffleUsers: the random order from `Math.random` and an argument-ignoring sort comparator is modelled only as some permutation, chosen by nondeterministic swaps. No distribution is modelled.
- The value of `DEFAULT_GROUP_SIZE` (the `./constants` module is not part of this model); it is a parameter of at least 1.
- `Math.ceil` on a floating-point quotient is modelled as exact integer ceiling division. This is exact for any realistic list length.
- JavaScript arrays (the user list, each finished group list, `topicList`) are sequence values, so the model does not capture aliasing. Within the modelled code nothing mutates a group list after `distributeUsers` returns: the loop passes `topicList[i - 1]` only to `generateTopicUserGroups`, which ignores it, and the `--verbose` output maps the lists into new arrays. What `asyncWriteToCsvFile` does with `topicList` is not modelled.
- In the source, a user is silently dropped if no group has room. The model keeps that branch (the inner loop can end without a push) and proves it is never taken.
