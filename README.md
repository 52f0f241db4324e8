# LFU cache — a verified Dafny model

This project models the least-frequently-used cache class `LFUCache`.
The class exists twice in the repository: in the package (`lfu_cache/models.py`) and in the older single file (`lfu_cache.py`).
Both copies run the same algorithm over two structures that must stay in lock-step:

- `_priority_queue`: a list of `[key, access_count]` slots. Slot 0 is the most used entry and the last slot is the eviction candidate.
- `_cache_entries`: a dict `key -> [queue_id, value]`, where `queue_id` is the slot that holds the key.

The model is one class, `Cache.LFUCache`.
Its fields are the queue (`seq<Slot<K>>`), the index (`map<K, Entry<V>>`), `limit: Option<nat>`, `hits` and `misses`.
Its methods change these fields as the Python methods do.
The loops of the source appear as Dafny loops with invariants:

- the swap loop of `_increment_access_count`, in `SwapLeft`;
- the re-index loop of `remove` / `_remove_by_id`, in `DeleteEntry`;
- the pop loop of the `limit` setter, in `Truncate`.

Each loop is proved against a pure specification:

- `PrioritySequence.Promoted`, `Landing` and `RemoveAt` describe the queue.
- `FrequencyIndex.IndexAfterPromote` and `IndexAfterRemove` describe the index.

The class invariant `Valid()` has three parts:

- the index and the queue index each other (`Indexes`): a bijection between keys and slots, so the sizes are equal;
- the counts are positive and non-increasing (`Ordered`);
- the length is at most the limit.

Every public method keeps `Valid()`.
The two `limit` setters are modelled separately:

- `SetLimit` validates, as `lfu_cache/models.py` does;
- `SetLimitUnchecked` does not, as `lfu_cache.py` does.

Modules:

- `wrappers.dfy` (`Wrappers`): `Option`, `Result` and `Outcome`.
- `priority_sequence.dfy` (`PrioritySequence`): the queue as a value; promotion, deletion and append; ordering and key lemmas.
- `frequency_index.dfy` (`FrequencyIndex`): the index as a value; how each mutation keeps it exact.
- `lfu_cache.dfy` (`Cache`): limit validation, the `retrieve` rows, the loop methods and the class.

## Model

| member | source | states |
|---|---|---|
| `PrioritySequence.RemoveAt` | lfu_cache/models.py:200-202 | deleting slot `i` shortens the queue by one; earlier slots stay, later slots shift left by one |
| `PrioritySequence.Landing` | lfu_cache/models.py:251-262 | where the swap loop stops: every slot the raised entry passes holds a strictly smaller count, and the slot above it, if any, holds an equal or larger count |
| `PrioritySequence.LandingUnique` | lfu_cache/models.py:251-262 | those two facts pin the stopping slot down, so any slot the loop can stop at is `Landing` |
| `PrioritySequence.Moved` | lfu_cache/models.py:251-262 | the queue the swap loop leaves when the raised entry stops at slot `j`: the slots before `j` untouched, the raised entry at `j`, the passed entries one slot further right, the slots after `i` untouched |
| `PrioritySequence.MovedAt` | lfu_cache/models.py:251-262 | slot by slot: the raised entry sits at its new slot and the passed entries are one slot further right |
| `PrioritySequence.MovedInPlace` | lfu_cache/models.py:249 | before any swap, only the count of the accessed slot has gone up by one |
| `PrioritySequence.MovedSwap` | lfu_cache/models.py:258-261 | one swap with the left neighbour moves the raised entry exactly one slot further left |
| `PrioritySequence.Promoted` | lfu_cache/models.py:245-262 | the queue after `_increment_access_count` of slot `i`: the count raised by one and the entry moved to its `Landing` slot, with the rest laid out as in `Moved` |
| `PrioritySequence.PromotedOrdered` | lfu_cache/models.py:245-262 | promotion keeps every count positive and the queue non-increasing by count |
| `PrioritySequence.PromotedKeepsOthers` | lfu_cache/models.py:245-262 | the promoted entry is at its landing slot with count + 1; taking it out leaves the other entries with their counts, in their old order |
| `PrioritySequence.PromotedKeys` | lfu_cache/models.py:245-262 | promotion keeps the set of keys, and keeps them distinct |
| `PrioritySequence.PromotedToFront` | lfu_cache/models.py:251-254 | if no earlier slot has a larger count, the accessed entry goes to slot 0 and the rest keep their order (the outcome of `get` in tests/tests.py:152-156) |
| `PrioritySequence.PromotedStaysBelowEqual` | lfu_cache/models.py:251-254 | ties never swap: if the left neighbour's count is at least the raised count, only the count changes |
| `PrioritySequence.RemoveAtOrdered` | lfu_cache/models.py:226-232 | deleting a slot keeps the queue ordered and its keys distinct |
| `PrioritySequence.EvictThenAppend` | lfu_cache/models.py:140-147 | at capacity, evicting the last slot and appending `[key, 1]` keeps the length; the survivors keep their slots, the new key is the tail, and the order holds (tests/tests.py:83-89) |
| `PrioritySequence.AppendOrdered` | lfu_cache/models.py:146 | appending a new key with count 1 keeps the queue ordered |
| `PrioritySequence.PrefixOrdered` | lfu_cache/models.py:97-101 | dropping the tail keeps the queue ordered |
| `FrequencyIndex.IndexedKeys` | lfu_cache/models.py:52-55 | an exact index forces distinct keys in the queue, and the index holds exactly the queue's keys |
| `FrequencyIndex.IndexSize` | lfu_cache/models.py:78-82 | an exact index has as many keys as the queue has slots, so `len` of either structure is the size |
| `FrequencyIndex.IndexAfterRemove` | lfu_cache/models.py:200-208 | the index after deleting slot `i`: exactly the deleted key is gone and every other key keeps its value; `RemoveKeepsIndex` proves the renumbered slots match `RemoveAt` |
| `FrequencyIndex.IndexAfterPromote` | lfu_cache/models.py:255-266 | the index after a promotion from `i` to `j`: the same keys, every value kept, and the promoted key pointing at `j`; `MoveKeepsIndex` proves the renumbered slots match `Moved` |
| `FrequencyIndex.ValuesOfStore` | lfu_cache/models.py:147 | storing one entry stores its value and changes no other value |
| `FrequencyIndex.PromoteKeepsValues` | lfu_cache/models.py:264-266 | re-indexing after a promotion renumbers slots only; every key keeps its value |
| `FrequencyIndex.RemoveKeepsValues` | lfu_cache/models.py:200-208 | re-indexing after a deletion drops exactly the deleted key's value |
| `FrequencyIndex.PromoteStep` | lfu_cache/models.py:255-259 | one iteration of the swap loop moves the displaced neighbour's stored index on by one, which is the next stage of the re-indexing |
| `FrequencyIndex.PromoteDone` | lfu_cache/models.py:264-266 | writing the promoted key's own index at its resting slot completes the re-indexing of a promotion |
| `FrequencyIndex.RemoveStep` | lfu_cache/models.py:206-208 | one iteration of the re-index loop moves the next entry's stored index down by one |
| `FrequencyIndex.RemoveDone` | lfu_cache/models.py:206-208 | once every later entry has been visited, the index is the one after deletion |
| `FrequencyIndex.RemoveKeepsIndex` | lfu_cache/models.py:196-208 | deleting a slot and decrementing every later stored index keeps the index exact |
| `FrequencyIndex.MoveKeepsIndex` | lfu_cache/models.py:245-266 | moving the raised entry to any slot `j` and each passed entry's index up by one keeps the index exact |
| `FrequencyIndex.PromotionKeepsIndex` | lfu_cache/models.py:236-266 | a whole promotion keeps the index exact, every value as it was, and the queue ordered |
| `FrequencyIndex.PopKeepsIndex` | lfu_cache/models.py:99-100 | popping the last slot and deleting its key keeps the index exact |
| `FrequencyIndex.AppendKeepsIndex` | lfu_cache/models.py:146-147 | appending `[key, 1]` and indexing the key at the old length keeps the index exact |
| `FrequencyIndex.StoreKeepsIndex` | lfu_cache/models.py:153 | overwriting a key's value keeps the index exact |
| `Cache.ValidateLimit` | lfu_cache/models.py:40-49 | a limit is refused exactly when it is not an integer or is a negative one; None means unbounded and an integer `n >= 0` means `n` (also the setter's check at lfu_cache/models.py:94-95) |
| `Cache.SliceBound` | lfu_cache/models.py:285 | a slice bound as Python clamps it: an absent bound is the default, a bound within the length is kept, a larger one becomes the length |
| `Cache.Rows` | lfu_cache/models.py:283-286 | one row per slot of the slice: the slot's key and count, and the value the index holds for the key |
| `Cache.RowsCoverIndex` | lfu_cache/models.py:283-286 | the rows of the whole queue hold exactly the keys of the index |
| `Cache.RowsOrdered` | lfu_cache/models.py:283-286 | the rows come with the highest count first, positive counts, and no key twice |
| `Cache.SwapLeft` | lfu_cache/models.py:249-262 | the bump and swap loop leaves the entry at `Landing` and the queue `Moved` to there; each displaced neighbour's index is one slot on (lfu_cache.py:241-254) |
| `Cache.PromoteEntry` | lfu_cache/models.py:245-266 | `_increment_access_count` on the two structures: the queue becomes `Promoted`; the index stays exact, the values are kept, and the order is kept |
| `Cache.DeleteEntry` | lfu_cache/models.py:226-232 | the deletion and re-index loop give `RemoveAt` of the queue and `IndexAfterRemove` of the index (lfu_cache.py:218-224) |
| `Cache.Truncate` | lfu_cache/models.py:97-101 | the pop loop leaves the first `n` slots, or the whole queue if it is shorter; it keeps the index exact and the order, and keeps exactly the keys whose slot is below `n`, unchanged (lfu_cache.py:89-93) |
| `Cache.LFUCache.constructor` | lfu_cache/models.py:51-57 | a new cache is empty, valid, holds the given limit and has zero hits and misses |
| `Cache.LFUCache.Create` | lfu_cache/models.py:31-57 | `__init__` fails exactly when `ValidateLimit` does; otherwise it gives a fresh, empty, valid cache with that limit (lfu_cache.py:42-66) |
| `Cache.LFUCache.Len` | lfu_cache/models.py:78-82 | the length of the queue equals the number of indexed keys |
| `Cache.LFUCache.HasCache` | lfu_cache/models.py:159-164 | a key is indexed exactly when some slot of the queue holds it |
| `Cache.LFUCache.Retrieve` | lfu_cache/models.py:268-287 | the rows are those of `_priority_queue[start:end]`, with bounds clamped as Python clamps them; each row's key and count come from its slot, and its value from the index |
| `Cache.LFUCache.RetrieveOrdered` | lfu_cache/models.py:283-286 | retrieved rows come most used first, with positive counts and no key twice; the whole view lists exactly the cached keys |
| `Cache.LFUCache.Clear` | lfu_cache/models.py:114-120 | both structures are emptied; the limit, `hits` and `misses` are untouched (lfu_cache.py:106-112) |
| `Cache.LFUCache.IncrementAccessCount` | lfu_cache/models.py:236-266 | the queue becomes `Promoted` at the key's slot, the values are unchanged, and the invariant holds (lfu_cache.py:228-258) |
| `Cache.LFUCache.DeleteSlot` | lfu_cache/models.py:226-232 | the slot is deleted from the queue, its key's value is dropped, every later entry's stored index goes down by one, and the invariant holds |
| `Cache.LFUCache.RemoveById` | lfu_cache/models.py:212-234 | returns True exactly for a slot in range, which is then deleted with its key; otherwise nothing changes (lfu_cache.py:204-226) |
| `Cache.LFUCache.Remove` | lfu_cache/models.py:186-210 | returns True exactly for a cached key; its slot is then deleted, its value dropped, and the later indexes decremented; otherwise nothing changes (lfu_cache.py:178-202) |
| `Cache.LFUCache.TruncateTo` | lfu_cache/models.py:97-101 | the lowest-priority entries are dropped until at most `n` remain; the survivors keep their slots and entries |
| `Cache.LFUCache.SetLimit` | lfu_cache/models.py:88-104 | a negative or non-integer limit fails before any change; otherwise the queue is truncated to the new limit (None keeps it whole) and the limit is set |
| `Cache.LFUCache.SetLimitUnchecked` | lfu_cache.py:84-96 | the queue is truncated to the new limit (None keeps it whole) and the limit is set, without validation |
| `Cache.LFUCache.Get` | lfu_cache/models.py:166-184 | an absent key gives `default` and changes nothing; a present key counts one hit, is promoted, and gives its stored value, with the values unchanged (lfu_cache.py:158-176) |
| `Cache.LFUCache.InsertNew` | lfu_cache/models.py:140-147 | a full cache first evicts slot `limit - 1`, which is its last slot; the new key is then appended with count 1, so the length stays at the limit |
| `Cache.LFUCache.AppendNew` | lfu_cache/models.py:146-147 | `[key, 1]` goes at the tail and the key is indexed there with its value |
| `Cache.LFUCache.UpdateExisting` | lfu_cache/models.py:151-153 | the key is promoted, then its value is overwritten |
| `Cache.LFUCache.Add` | lfu_cache/models.py:122-157 | with limit 0, or with an existing key and no `update`, it returns False and nothing changes. A new key is appended after the eviction at capacity. With `update`, the key is promoted and its value replaced. Every True counts one miss (lfu_cache.py:114-149) |

## Left out

- Locking (`RLock` and `with self._lock`) is left out: the lock only serialises calls, so the model is sequential.
- `__repr__`, `__str__` and `__get_hex_id` are left out: they only format `id(self)`.
- The decorator layer is left out:
  - `lfu_cache/decorators.py`;
  - `create_lfu_cache` in `lfu_cache.py`;
  - `_make_key` and `_HashedSeq`, which rest on Python's `hash()`, `type()` reflection and `functools`;
  - `lfu_cache/__init__.py`, which only re-exports names and parses the version string.
- The `limit`, `hits` and `misses` getters are not separate members: they are the class's fields, read directly.
- `Cache.LFUCache.Retrieve`: only absent or non-negative `start`/`end` are modelled. Python's negative slice bounds (counting from the end) are not.
- `Cache.LFUCache.SetLimitUnchecked`: its limit is typed `Option<nat>`, which leaves out two inputs.
  - A negative limit would make `lfu_cache.py` pop from an empty list and fail halfway through truncation.
  - A non-number limit (a string, say) fails on the subtraction at `lfu_cache.py:89`.
  - A float limit `f` is accepted: the pop loop truncates the queue to its floor and the limit is stored as the float.
    - For `f >= 1`, `add` can grow the queue past `f`. The next eviction calls `_remove_by_id(f - 1)`, which passes the range test at `lfu_cache.py:215` and then fails with a `TypeError` when it indexes the list with a float at `lfu_cache.py:218`.
    - For `0 < f < 1`, nothing raises. Once one key is cached, `add` of a new key calls `_remove_by_id(f - 1)`, which returns False at `lfu_cache.py:215`. `add` still lowers its local length (lines 136-139), appends the key at slot 1 and indexes it at slot 0. Two keys then point at slot 0, so the index no longer matches the queue.
- `Cache.ValidateLimit`: the kinds of argument are modelled as `LimitArg` (None, an integer, or anything else). Python's `bool` is an `int` subclass and falls under "an integer".
- The constructor of `lfu_cache.py` raises a plain `Exception` where `lfu_cache/models.py` raises `LFUCacheException`. Both are `CacheError.InvalidLimit` here.
- Loops on local copies:
  - The loops run on local copies of the queue and the index, which are then assigned back to the fields. Python mutates the list and dict in place.
  - Nothing outside the class holds a reference to them, so no caller can see the difference.
  - `retrieve` builds a fresh list.
- `Cache.LFUCache.Get`: `get(key, default=None)` defaults `default` to None, which has no counterpart in a generic value type `V`; callers pass `default` explicitly. The other defaults are kept: `Create` takes limit 128, `Add` takes `update := false`, and `Retrieve` takes `start := None` and `end := None`.
- `Cache.LFUCache.InsertNew` tests `|queue|` where `add` calls `len(self)`. That is the same value; `Len` states that it is also the index size.
