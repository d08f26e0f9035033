# File-assignment partition of the batch fleet controller

This project models the core of a batch-processing fleet controller. The
controller lists the objects in a storage bucket. It keeps those whose name
contains a given pattern (the source blob name) anywhere, and splits them among `W` worker instances. Each
worker computes its own share from its ordinal `instance_no` without
talking to the others: with `q = N // W` and `r = N % W` over the `N`
matching objects, ordinals `0 .. r-1` take `q + 1` contiguous objects and
the rest take `q`. The other piece of pure logic is the path helper
`get_joinable_rear_path`, which strips leading `/` characters.

Modules:

- `Partition` (`partition.dfy`) holds the range arithmetic `Assign(n, w, k)`
  and the proofs about it: bounds, closed form, balance, adjacency, first
  and last worker, ordering and disjointness, and an inverse `Owner` giving
  the single worker that holds each index. It also holds the slice
  `Share(xs, w, k)` and coverage: the shares of workers `0 .. w-1`,
  concatenated in order, are the whole listing.
- `Assignment` (`assignment.dfy`) holds the substring filter as a specification
  function `Matching` and `AssignFiles`, the method with the source's
  filtering loop. The method's contract ties its result to
  `Share(Matching(listing), w, k)`.
- `RearPath` (`rear_path.dfy`) holds `JoinableRearPath` and its inverse and
  idempotence lemmas.

The bucket listing is an input sequence `listing: seq<T>`. An object is
seen only through a name projection `name: T -> string`. Python's
`name.__contains__(pattern)` is `Contains(name, pattern)`: the pattern
occurs at some offset of the name, not only at its start. The empty
pattern therefore matches every name.

The source does not validate `total_instances` or `instance_no`. With
`total_instances == 0` it fails with Python's `ZeroDivisionError` at line
293. With a negative `total_instances` the floor division and modulo
still run and yield a meaningless range. With
`instance_no >= total_instances` the start is at least `N`, so the slice
is always empty. A negative `instance_no` gives slice bounds that Python
counts from the end of the list. For -1 the slice is always empty; other
negative values may give objects that also belong to other workers. The model excludes all of these inputs:
`1 <= w` and `k < w` are preconditions, and ordinals and counts are
`nat`.

## Model

| member | source | states |
|---|---|---|
| `Partition.Assign` | airflow/plugins/helper_functions.py:293-297 | for `w >= 1` and `k < w`, the worker's range satisfies `start <= end <= n`, so slicing at it is always within the filtered list |
| `Partition.ClosedForm` | airflow/plugins/helper_functions.py:293-297 | `start` is `min(k, r)` shares of `q + 1` plus `k - min(k, r)` shares of `q`; `end` is `start + q + 1` when `k < r`, else `start + q` |
| `Partition.Balance` | airflow/plugins/helper_functions.py:293-297 | every share has size `floor(n / w)` or `ceil(n / w)`; exactly the ordinals `k < n % w` get `ceil(n / w) == q + 1`, the rest get `floor(n / w)` |
| `Partition.CeilDiv` | airflow/plugins/helper_functions.py:293-294 | `ceil(n / w)` equals `q` when `r == 0` and `q + 1` otherwise |
| `Partition.Adjacent` | airflow/plugins/helper_functions.py:296-297 | worker `k`'s range ends where worker `k + 1`'s begins, for every `k + 1 < w` |
| `Partition.Ends` | airflow/plugins/helper_functions.py:296-297 | worker 0 starts at 0 and worker `w - 1` ends at `n` |
| `Partition.Ordered` | airflow/plugins/helper_functions.py:296-297 | for ordinals `i < j`, worker `i`'s range ends no later than worker `j`'s starts |
| `Partition.Disjoint` | airflow/plugins/helper_functions.py:296-297 | no index lies in the ranges of two different workers |
| `Partition.Owner` | airflow/plugins/helper_functions.py:293-297 | inverse of the partition: for every index `i < n`, it gives an ordinal `k < w` whose range contains `i` |
| `Partition.OwnerUnique` | airflow/plugins/helper_functions.py:293-297 | worker `k`'s range contains `i` if and only if `k == Owner(n, w, i)`, so every index has exactly one worker |
| `Partition.Share` | airflow/plugins/helper_functions.py:309 | the worker's list has the range's size, and its `j`-th element is element `start + j` of the filtered list |
| `Partition.GatherPrefix` | airflow/plugins/helper_functions.py:293-309 | the shares of workers `0 .. m-1`, concatenated in order, are exactly the prefix of the list up to worker `m`'s start |
| `Partition.Coverage` | airflow/plugins/helper_functions.py:293-309 | the shares of all `w` workers, concatenated in ordinal order, are exactly the filtered list: no object is dropped, duplicated or reordered |
| `Partition.SixtyOverEleven` | airflow/plugins/helper_functions.py:298-308 | with 60 files over 11 instances, `q = r = 5`; ordinals 0-4 take `(6k, 6k+6)`, e.g. ordinal 4 takes `(24, 30)`; ordinals 5-10 take `(5k+5, 5k+10)`, e.g. `(30, 35)` and `(55, 60)` |
| `Partition.NoItems` | airflow/plugins/helper_functions.py:293-297 | with no matching objects every worker gets the empty range `(0, 0)` |
| `Partition.SingleWorker` | airflow/plugins/helper_functions.py:293-297 | a single instance gets the whole range `(0, n)` |
| `Assignment.Contains` | airflow/plugins/helper_functions.py:290 | the substring test `name.__contains__(pattern)`: true whenever the pattern starts the name (so always for the empty pattern), and never true for a pattern longer than the name |
| `Assignment.Matching` | airflow/plugins/helper_functions.py:288-291 | the filtered list is no longer than the listing, and every object in it comes from the listing and has a name containing the pattern |
| `Assignment.MatchingComplete` | airflow/plugins/helper_functions.py:288-291 | every listed object whose name contains the pattern is in the filtered list |
| `Assignment.MatchingConcat` | airflow/plugins/helper_functions.py:288-291 | filtering a concatenation is the concatenation of the filtered parts, so the listing's relative order is kept |
| `Assignment.MatchingIdempotent` | airflow/plugins/helper_functions.py:288-291 | filtering an already filtered list by the same pattern leaves it unchanged |
| `Assignment.AssignFiles` | airflow/plugins/helper_functions.py:278-309 | the loop builds exactly `Matching(listing)`; the result is that list sliced at `Assign(N, W, instance_no)`; every returned object is listed and has a matching name |
| `Assignment.AssignedOnce` | airflow/plugins/helper_functions.py:293-309 | the `i`-th matching object is in the share of worker `Owner(N, W, i)`, and no other worker's range contains position `i` |
| `RearPath.StartsWithSlash` | airflow/plugins/helper_functions.py:27 | `path.startswith('/')`: true exactly when `/` is a prefix of the string |
| `RearPath.JoinableRearPath` | airflow/plugins/helper_functions.py:21-27 | the result does not start with `/`, and the input is some number of `/` characters followed by the result |
| `RearPath.StripSlashes` | airflow/plugins/helper_functions.py:21-27 | prepending any number of `/` to a string that does not start with `/`, then stripping, gives that string back |
| `RearPath.Idempotent` | airflow/plugins/helper_functions.py:21-27 | stripping twice gives the same result as stripping once |

## Left out

- Storage I/O: `storage.Client`, `get_bucket` and `list_blobs` at airflow/plugins/helper_functions.py:282-286. These are foreign SDK calls. The listing is a parameter of `AssignFiles`, and the model assumes every worker sees the same listing.
- The blob objects themselves: the model sees only their names, through a projection.
- Argument validation: the source has none, and the model excludes the invalid inputs by preconditions and `nat` types. `total_instances == 0` raises Python's `ZeroDivisionError`. A negative `total_instances` gives a meaningless range. An `instance_no >= total_instances` always gets an empty slice. A negative `instance_no` gives slice bounds that Python counts from the end of the list: for -1 the slice is always empty, and other negative values may give objects that also belong to other workers.
- `worker_task` (airflow/plugins/helper_functions.py:343-392): downloading, the external `log_parser.main` transform and uploading are I/O and foreign calls. The name rewriting it does by string replacement (lines 368, 379 and 385) is not modelled either; only its call to `assign_files` is.
- Cloud compute management (`create_instance`, `delete_instance`, `list_instances`, `setup_instances`, `delete_instances`) and `wait_for_operation`, which polls with sleeps: thin wrappers over the Google Compute API.
- `upload_blob`, `download_blob*`, `sync_folders`, `walktree_to_upload`, `make_dirs` and `unzip`: object-store and filesystem I/O.
- `get_airflow_configs`: depends on a MongoDB client.
- Configuration read from environment variables (bucket, project, zone).
- RearPath.JoinableRearPath: the source strips one slash per recursive call, so a path with about 1000 or more leading `/` exceeds Python's default recursion limit and raises `RecursionError`; the model has no recursion limit and returns the stripped string for every input.
- airflow_2/plugins/helper_functions.py is not part of this model. It holds only instance management, transfer and directory walking, and its `worker_task` is a stub.
- Python strings are modelled as sequences of characters. No Unicode normalisation or case folding is involved in `__contains__` or `startswith`, so none is modelled.
