# Memo store of memopad, in Dafny

This project models the client-side memo store of the memopad note-taking
application (`src/store/memo.js`, a Pinia store). The store holds two pieces
of state: a counter `count` that hands out memo ids and an ordered list
`memos`. It offers three getters (the list, its length, the first memo with a
given id) and two actions:

- `save` inserts a memo that has no id (id absent or 0, the falsy case in
  JavaScript) at the front of the list, giving it the id `count + 1` and
  bumping the counter; a memo with a non-zero id replaces the first memo with
  that id, and is dropped when no memo has that id;
- `delete` keeps only the memos whose id differs from the given one.

`MemoStore.dfy` holds one module, `MemoStore`:

- `Memo` is the memo record (`id`, `title`, `content`); the store only reads
  `id`. Id 0 stands for "no id".
- `FindIndex`, `Find` and `RemoveId` are the list operations the store uses
  (`findIndex`, `find` and `filter` on the id), as pure functions with
  contracts that say what they return.
- `Store` is a class with the fields `count` and `memos`, a ghost field
  `Issued` (every id ever handed out) and an invariant `Valid()`: ids lie in
  `1..count`, are pairwise distinct, and `Issued` is exactly `1..count`. The
  getters are functions; `Save` and `Delete` are methods whose postconditions
  give the new list and counter exactly and keep `Valid()`.
- The lemmas prove the properties of deletion (order kept, idempotent,
  invariant kept) and the consequences of the invariant: a fresh id never
  collides with a stored memo, deleted ids are never handed out again, and
  the list is never longer than `count`. These rest on an unbounded counter
  (see "Left out" for the JavaScript number's limit).

In JavaScript `save` calls `unshift` before it writes the new id into the
caller's object; since the list holds that same object, the front memo ends
up with the new id. The model inserts the memo with its id already set and
returns it from `Save`, which is how the caller sees the id afterwards.

## Model

| member | source | states |
|---|---|---|
| MemoStore.FindIndex | src/store/memo.js:24 | the index of the first memo with the id, or -1 exactly when no memo carries it |
| MemoStore.Find | src/store/memo.js:18 | the first memo with the id (carrying that id, earlier memos do not), or nothing exactly when no memo carries it; nothing on an empty list |
| MemoStore.RemoveId | src/store/memo.js:34 | a memo is in the result exactly when it was in the list and its id differs from the deleted one; never longer than the list |
| MemoStore.RemoveIdAppend | src/store/memo.js:34 | deletion keeps the remaining memos in their original order (it distributes over concatenation) |
| MemoStore.RemoveIdAbsent | src/store/memo.js:34 | deleting an id no memo carries leaves the list unchanged |
| MemoStore.RemoveIdIdempotent | src/store/memo.js:33-35 | deleting the same id twice equals deleting it once |
| MemoStore.ConsKeepsIdsValid | src/store/memo.js:28-31 | prepending a memo whose id is in range and unused keeps ids in range and distinct |
| MemoStore.RemoveIdKeepsIdsValid | src/store/memo.js:33-35 | deletion keeps ids in `1..count` and pairwise distinct |
| MemoStore.RemoveIdDistinctLength | src/store/memo.js:34 | with distinct ids, deleting an id removes at most one memo |
| MemoStore.LengthBound | src/store/memo.js:14-16 | with ids distinct in `1..count`, the list holds at most `count` memos |
| MemoStore.FreshIdAbsent | src/store/memo.js:28-31 | an id above the counter is carried by no memo, so lookup of it finds nothing |
| MemoStore.Store.constructor | src/store/memo.js:4-8 | the store starts with `count = 0`, an empty list and no id handed out, and is valid |
| MemoStore.Store.GetMemos | src/store/memo.js:11-13 | returns the stored list |
| MemoStore.Store.GetCount | src/store/memo.js:14-16 | returns the length of the list, which in a valid store is at most the `count` field |
| MemoStore.Store.GetMemoById | src/store/memo.js:17-19 | the first memo with the id or nothing exactly when none has it; nothing on an empty store; in a valid store the found memo is the only one with that id and its id is in `1..count` |
| MemoStore.Store.Save | src/store/memo.js:22-32 | id 0: the memo is prepended with id `old count + 1`, the counter grows by one and that id was never handed out before nor is carried by a stored memo; non-zero id: the first memo with that id is replaced, or nothing changes when there is none, and the counter stays; keeps `Valid()` |
| MemoStore.Store.Delete | src/store/memo.js:33-35 | the new list is the old one without the memos carrying the id; no memo with it is left; counter and handed-out ids unchanged; keeps `Valid()` |
| MemoStore.SaveDeleteSaveScenario | src/store/memo.js:22-35 | saving three memos, deleting the second and saving again yields ids 1, 2, 3, 4 (the freed id 2 is not reused), three memos and `count = 4` |

## Left out

- Persistence of the store to browser storage (`persist: true` and the
  persisted-state plugin): I/O, not modelled.
- `getMemoById` converts its argument with `parseInt`; the model takes an
  integer id, so whitespace, signs and trailing characters are not modelled.
- `delete` compares ids with `!==` against whatever value it is given; the
  model takes an integer id, so a non-number argument (which would delete
  nothing) is not modelled.
- MemoStore.Store.Save: a memo whose id is truthy but not a number (the
  string `"3"`, say) matches no stored memo under `===`, so `save` leaves the
  store unchanged; `Memo.id` is an integer, so this case is not modelled.
- MemoStore.Store.Save: `count` is an unbounded integer, while `++this.count`
  works on a JavaScript number (a double), which stops growing at 2^53. The
  freshness clauses of `Save` (the new id was never handed out and no stored
  memo carries it) therefore hold for the source only while fewer than 2^53
  ids have been handed out.
- MemoStore.Store.GetMemos: the list is modelled as a value, while the
  getter hands out the live array. Neither effect of that is captured: a later
  `save` changes that array in place, so an earlier result shows the change;
  `delete` puts a new array in the field, so an earlier result still shows the
  deleted memos.
- Object identity: the store keeps the caller's object itself, so later
  changes to that object by the caller show up in the store. The model holds
  memos as values.
- Pinia and Vue reactivity, the `defineStore` machinery, and the rest of the
  application (Firebase set-up, sign-up and log-in wrappers, the router, the
  application bootstrap) are not part of this model. No backend
  create/update/delete, subscription or max-plus-one id allocation exists in
  the store, so none is modelled.
