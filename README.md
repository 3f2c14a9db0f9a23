# Baby-name picker: edit distance and the client-side list logic

This project models, in Dafny, the parts of the baby-name picker that
contain logic of their own:

- `WorkerUtils` (`levenshtein.dfy`) models the worker's Levenshtein
  distance. `EditDistance` is a recursive specification. `Levenshtein` is
  the worker's algorithm. It fills a `(|b|+1) x (|a|+1)` two-dimensional
  array with the same loops. Rows follow `b` and columns follow `a`. The
  method is proved to return `EditDistance(a, b)`. Lemmas then prove the
  base cases, identity, zero-iff-equal, symmetry and the length bounds. A
  further lemma proves that copying the diagonal on a matching character
  (as the worker does) gives the same result as the textbook recurrence,
  which always takes the minimum.
- `RatePage` (`rate.dfy`) models the rating page's queue of name cards:
  - the in-place Fisher-Yates shuffle of the fetched cards;
  - the head pop and vote request when a vote button is pressed;
  - the removal of an added suggestion from the suggestion modal.
- `HistoryPage` (`history.dfy`) models the history page's optimistic vote
  update. It maps over the vote list and gives every record for one name
  the new vote.

The random index of each shuffle step (`Math.floor(Math.random() * (i + 1))`)
is a parameter. `picks[i]` is the index chosen at step `i`. It may be any
value in `0..i`, which is exactly the range that expression can produce.
Network calls are not made. The page functions return the request the page
would send (`VoteCall`, `SubmitCall`). Whether the submission's promise
resolved is a boolean parameter. It resolves whenever the server answers with
JSON, including a refusal, since the client never checks the status.

The vote route inserts a fresh row (worker/index.ts:60-68). The names
route returns every row (worker/index.ts:20). There is no seed route and no
matches route. `fetchNames` copies the upstream gender value unchanged
(worker/utils.ts:50). The two pages use different vote sets.
`HistoryPage.Vote` has like/dislike/superlike (src/pages/History.tsx:9).
`RatePage.Vote` has like/dislike/maybe (src/pages/Rate.tsx:51).

Strings in the edit distance are sequences of UTF-16 code units
(`WorkerUtils.Utf16`). That is what JavaScript's `length` and `charAt`
count, so a character outside the Basic Multilingual Plane counts as two
units, as it does in the worker. The page models keep names and ids as
Dafny strings; the pages only test them for equality, which gives the same
answer on either representation.

## Model

| member | source | states |
|---|---|---|
| `WorkerUtils.Levenshtein` | worker/utils.ts:1-29 | the table-filling loops return exactly `EditDistance(a, b)`; the row invariant says every filled cell `(r, c)` holds the distance between `a[..c]` and `b[..r]` |
| `WorkerUtils.TableBorders` | worker/utils.ts:4-10 | row 0 holds `0..|a|` and column 0 holds `0..|b|`: against an empty prefix the distance is the other prefix's length, so `distance("", b) == |b|` and `distance(a, "") == |a|` at the full lengths |
| `WorkerUtils.CellRecurrence` | worker/utils.ts:13-25 | cell `(i, j)` equals the diagonal cell when `b[i-1] == a[j-1]`, otherwise one plus the least of diagonal (substitution), left (insertion) and up (deletion) |
| `WorkerUtils.EditDistanceSelf` | worker/utils.ts:12-28 | a string is at distance 0 from itself |
| `WorkerUtils.EditDistanceZeroIff` | worker/utils.ts:12-28 | the distance is 0 exactly when the two strings are equal (both directions) |
| `WorkerUtils.EditDistanceSingle` | worker/utils.ts:14 | for any two code units `x` and `y`, the one-unit strings are at distance 0 if `x == y` and 1 otherwise: units are compared exactly |
| `WorkerUtils.EditDistanceCaseSensitive` | worker/utils.ts:14 | no case folding: `"A"` and `"a"` are at distance 1, as are `"Sofia"` and `"sofia"` |
| `WorkerUtils.EditDistanceSurrogatePair` | worker/utils.ts:8-10 | a character outside the Basic Multilingual Plane (U+1F600, units 0xD83D 0xDE00) is at distance 2 from the empty string, as the worker's code-unit `length` gives |
| `WorkerUtils.EditDistanceSymmetric` | worker/utils.ts:12-28 | `distance(a, b) == distance(b, a)` |
| `WorkerUtils.EditDistanceBounds` | worker/utils.ts:4-28 | `||a| - |b|| <= distance(a, b) <= max(|a|, |b|)` |
| `WorkerUtils.EditDistanceAppendBound` | worker/utils.ts:17-23 | appending one character to the first string raises the distance by at most one |
| `WorkerUtils.EditDistanceDropBound` | worker/utils.ts:17-23 | removing the last character of the first string raises the distance by at most one |
| `WorkerUtils.EditDistanceIsStandard` | worker/utils.ts:12-26 | copying the diagonal on a match gives the same distance as the textbook recurrence that takes the minimum of all three edits in every cell |
| `RatePage.Shuffle` | src/pages/Rate.tsx:32-36 | for any choice `0 <= picks[i] <= i` at each step, the in-place loop from the last index down to 1 leaves the array equal to `Shuffled(old array, picks)` and a permutation of its input |
| `RatePage.SwapExchanges` | src/pages/Rate.tsx:35 | one step (`Swap`, the destructuring exchange) exchanges exactly positions `i` and `j`, keeps every other position and keeps the multiset of cards |
| `RatePage.ShuffledIsPermutation` | src/pages/Rate.tsx:33-36 | whatever the random choices, the shuffled cards have the same length and the same multiset as the fetched ones |
| `RatePage.ShuffleShortUnchanged` | src/pages/Rate.tsx:33 | zero or one card is left as it is, since the loop body never runs |
| `RatePage.ShuffleIdentityPicks` | src/pages/Rate.tsx:33-36 | when every step picks its own index (the random source pinned near 1, as src/pages/Rate.test.tsx:111 does), the cards keep their server order |
| `RatePage.HandleVote` | src/pages/Rate.tsx:51-60 | on an empty queue nothing changes and no vote is sent; otherwise exactly the head is removed, the rest stays in order, and the vote is sent for the head's id |
| `RatePage.VoteRunPopsPrefix` | src/pages/Rate.tsx:51-60 | over a run of presses (`VoteRun`, `handleVote` applied once per vote), after `k` presses the first `min(k, |queue|)` cards are gone, the rest remain in order, and the requests sent are, in order, the removed cards' ids with the votes pressed |
| `RatePage.SingleCardLike` | src/pages/Rate.test.tsx:86-92 | liking the only card sends the like for that card's id and leaves the queue empty |
| `RatePage.RemoveAll` | src/pages/Rate.tsx:117 | the filtered list no longer contains the added name, every other item keeps its number of occurrences, and the length drops by the number of removed occurrences |
| `RatePage.RemoveAllKeepsOrder` | src/pages/Rate.tsx:117 | the items that remain are a subsequence of the original list: their relative order is kept |
| `RatePage.RemoveAllAppend` | src/pages/Rate.tsx:117 | filtering a concatenation filters each part and concatenates the results |
| `RatePage.RemoveAllAbsent` | src/pages/Rate.tsx:117 | a name that is not in the list leaves it unchanged, so a second removal of the same name changes nothing |
| `RatePage.HandleAddToList` | src/pages/Rate.tsx:109-125 | without a current card nothing is sent or changed; otherwise the name is submitted with the current card's gender, and once the submission's promise resolves (a refusal by the server included) it is removed from the open modal's items, the title and the other items kept in order; a closed modal stays closed |
| `HistoryPage.UpdateVote` | src/pages/History.tsx:36-40 | the `map` over the list with the callback `Revote`: the list keeps its length and order; every record whose `nameId` is the target shows the new vote with `nameId`, `name`, `gender` and `createdAt` unchanged; every other record is unchanged |
| `HistoryPage.UpdateVoteIdempotent` | src/pages/History.tsx:38-40 | applying the same update twice gives the same list as applying it once |
| `HistoryPage.UpdateVoteLastWins` | src/pages/History.tsx:38-40 | two updates for the same name leave the list as the second update alone would |
| `HistoryPage.UpdateVoteCommutes` | src/pages/History.tsx:38-40 | updates for two different names give the same list in either order |
| `HistoryPage.UpdateVoteAbsent` | src/pages/History.tsx:38-40 | an update for a name with no record leaves the list unchanged |

## Left out

- The network calls are left out: `fetchNames` in worker/utils.ts:37-53, `API.getNames`, `API.vote` and `API.submitName`. They are I/O. The model returns the request a page would send, and whether a submission's promise resolved is a parameter.
- Floating-point randomness is left out: `Math.random` in the shuffle and the page's confetti. Each shuffle index is an arbitrary choice in `0..i`. The model does not state that every permutation is equally likely.
- React state is left out: rendering, animations, the match overlay, modal opening, and the loading and error flags. `handleVote` reads the head from the rendered `names` but pops from the latest state `prev`. The model assumes these are the same list, that is, no second vote lands before the page re-renders.
- The non-array guard of `fetchNames` (src/pages/Rate.tsx:25-30) is left out. It is a runtime type check on untrusted JSON, and the model's input is always a list.
- The history page's vote request and its refetch after a failed request (src/pages/History.tsx:42-48) are left out. They are I/O.
- The worker routes, the database schema, the AI suggestion calls and the user context (worker/index.ts, worker/schema.ts, worker/ai.ts, src/lib/api.ts, src/context/UserContext.tsx) are left out. They are I/O plumbing around a database, a generative-text service and browser storage, with no logic of their own beyond required-field checks.
- The name-submission forms (src/pages/Submit.tsx, src/components/NamePrompt.tsx) are left out. They only check `trim()` around library calls.
- `WorkerUtils.Levenshtein` does not model JavaScript numbers as floating point. Cell values are unbounded naturals, which agree with the source for any string length a page can hold.
- The server's reply status to a submission is left out, as the client never reads it (src/lib/api.ts:12-25), so a suggestion the server refuses (status 400 for an empty name or gender, worker/index.ts:29-31, or 500 for a failed insert, worker/index.ts:44) is still removed from the modal although no name was added; the model shows this, as `resolved` is true for such a reply.
