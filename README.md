# Quiz exercises: a verified model of the client-side logic

This project models the client logic of two quiz exercises.

- **Categorization exercise** (`categorize.jsx`). A learner drags items into category buckets. The model covers:
  - the Fisher–Yates shuffle of the presentation order (`useShuffle`);
  - grouping items into buckets by category (`useCategories`);
  - the drag-end rule that turns a drop into a move request;
  - the component state (`question`, `loading`, `error`), which changes only when the fetch or move request completes or fails, and the render precedence.
- **Cloze exercise** (`cloze.mjs`). A learner fills in named blanks. The model covers the answer-map update (`handleChange`), the fetch and submit transitions, and the render precedence.

Randomness, the network and the drag library become inputs:
- The shuffle takes a choice sequence `draws`, where `draws[i]` is the index picked while the loop counter is `i`.
- Each network call takes its outcome: a response document, or the failed request's error message.
- A drag takes the drop result the library reports, or none.

Modules:
- `Wrappers`: `Option`, `Result`, and JavaScript truthiness of a message.
- `Quiz`: `Item`, `Category` and `Exercise` documents.
- `Shuffler`: the in-place swap loop. It runs on a fresh array and is proved equal to the pure `Shuffled`. Lemmas prove the result is a permutation, positions above the loop counter are final, and every permutation is reachable.
- `Bucketizer`: the bucket builder, proved against the reference definition `InCategory`.
- `DragDrop`: the drop result, the drag-end rule, and which rendered items receive `moveItem`.
- `CategorizeSession`: the `CategorizeQuestion` class and its `Render` rule.
- `ClozeSession`: the `ClozeQuestion` class, `SetAnswer` and its `Render` rule.

Behaviour of the code worth knowing:
- **Bucketizing.** `obj[item.category].push(item)` throws a `TypeError` for any category name that was not declared, the empty name included. No item is left out silently. `Bucketizer.Bucketize` returns `Failure(UndeclaredCategory(item))` for the first such item.
- **Session state.** The component keeps three independent fields, and so does the model. A failed move switches the view to the error and keeps it there, because no transition clears `error`. Render precedence uses JavaScript truthiness, so an empty error message counts as no error.

## Model

| member | source | states |
|---|---|---|
| Shuffler.Swap | categorize.jsx:17 | the destructuring swap exchanges positions `i` and `j` and leaves every other position as it was |
| Shuffler.SwapPermutes | categorize.jsx:17 | a swap keeps the multiset of items |
| Shuffler.ShuffleDown | categorize.jsx:15-18 | the remaining loop iterations keep the length of the array |
| Shuffler.ShuffleDownPermutes | categorize.jsx:15-18 | the iterations from counter `i` down to 1 only rearrange items: same multiset |
| Shuffler.SuffixIsFinal | categorize.jsx:15-17 | positions above the loop counter are final: no later iteration (with `j <= i`) changes them |
| Shuffler.Shuffled | categorize.jsx:13-18 | the shuffle keeps the length, and inputs of length 0 or 1 come back unchanged |
| Shuffler.ShuffledIsPermutation | categorize.jsx:13-20 | the shuffled order holds exactly the input's items, each as often as in the input |
| Shuffler.Shuffle | categorize.jsx:8-24 | copies the items into a fresh array, swaps from the last index down to 1 with `0 <= j <= i`, leaves the input array unchanged, and returns `Shuffled(items, draws)`, a permutation of the input |
| Shuffler.EveryPermutationReachable | categorize.jsx:15-18 | for every rearrangement of the items there are admissible draws (`j` in `[0, i]` at each step) that produce it |
| Bucketizer.InCategory | categorize.jsx:38-40 | a bucket is never longer than the item list |
| Bucketizer.EmptyBuckets | categorize.jsx:32-36 | the first loop gives every declared category name, and only those names, an empty list |
| Bucketizer.Bucketize | categorize.jsx:27-46 | succeeds iff every item's category is declared; on failure reports the first item with an undeclared category (the `TypeError` of `push` on `undefined`); on success the keys are exactly the declared names and each bucket is `InCategory(items, name)` |
| Bucketizer.InCategorySnoc | categorize.jsx:38-40 | appending one item extends exactly the bucket its category names, at the end |
| Bucketizer.InCategoryConcat | categorize.jsx:38-40 | buckets follow input order: the bucket of `a + b` is the bucket of `a` followed by the bucket of `b` |
| Bucketizer.InCategoryCount | categorize.jsx:38-40 | each item occurs in the bucket named by its category exactly as often as in the input, and in no other bucket |
| Bucketizer.UnusedCategoryIsEmpty | categorize.jsx:34-40 | a declared category that no item names maps to the empty list |
| Bucketizer.BucketsIgnoreOrder | categorize.jsx:38-40 | bucket membership (as a multiset) does not depend on the order of the items |
| Bucketizer.ShuffledBucketsHoldSameItems | categorize.jsx:185-187 | bucketizing the shuffled items fails iff bucketizing the document's items would, and every bucket holds the same items either way |
| Bucketizer.BucketSizesSum | categorize.jsx:34-40 | when every item's category is among the distinct declared names, the bucket sizes add up to the number of items |
| Bucketizer.SortingScenario | categorize.jsx:27-46 | Cat/Animal and Oak/Plant give `Animal: [Cat]`, `Plant: [Oak]`; after Cat is reassigned to Plant they give `Animal: []`, `Plant: [Cat, Oak]` |
| DragDrop.DragSource | categorize.jsx:53 | the drag source carries the item's `_id` and its rendered index |
| DragDrop.DropResultOf | categorize.jsx:94 | a drop result exists iff the item was released over a category, and it carries that category's name |
| DragDrop.DragEnd | categorize.jsx:55-63 | `moveItem(item.id, dropResult.name)` is requested iff both the drag item and a drop result are present and the item has a callback; with either missing nothing happens; a missing callback is the `TypeError` outcome |
| DragDrop.HasMoveCallback | categorize.jsx:116-117 | only the copies in the item column (every item, in shuffled order) receive `moveItem`; the extra copies inside a bucket do not |
| DragDrop.ItemColumnDrop | categorize.jsx:55-63 | an item-column copy released over category `c` requests exactly the move `(item._id, c.name)`; released elsewhere it requests nothing |
| DragDrop.BucketedItemDropThrows | categorize.jsx:116-117 | as written, an item dragged out of a bucket onto a category reaches the missing `moveItem` |
| DragDrop.IntendedDropAlwaysMoves | categorize.jsx:196-203 | with `moveItem` passed to every item, a release over a category requests the move from either placement and never throws |
| CategorizeSession.Render | categorize.jsx:171-221 | `loading` wins over `error`, a truthy `error` wins over a present `question`, and with none of them nothing is rendered |
| CategorizeSession.CategorizeQuestion.constructor | categorize.jsx:126-130 | starts with no question, loading, no error, and renders the loading view |
| CategorizeSession.CategorizeQuestion.FetchQuestion | categorize.jsx:133-147 | clears `loading` on both paths; success sets `question` to the response and leaves `error`; failure sets `error` and leaves `question` |
| CategorizeSession.CategorizeQuestion.MoveItem | categorize.jsx:150-163 | sends `{itemId, categoryName}`; success replaces `question` wholesale with the response; failure sets `error` and leaves `question`; `loading` is never touched |
| CategorizeSession.CategorizeQuestion.EndDrag | categorize.jsx:59-61 | a move intent triggers exactly one request carrying the intent; on success `question` becomes the response and `error` is kept, on failure `error` is set to the message and `question` is kept; any other drag end sends nothing and changes nothing |
| ClozeSession.SetAnswer | cloze.mjs:43-46 | the changed blank holds the new value; every other blank keeps its value; the keys gain at most `name` |
| ClozeSession.SetAnswerIdempotent | cloze.mjs:43-46 | the same change applied twice equals applying it once |
| ClozeSession.SetAnswerLastWins | cloze.mjs:43-46 | a later change to the same blank overrides an earlier one |
| ClozeSession.SetAnswerCommutes | cloze.mjs:43-46 | changes to different blanks commute |
| ClozeSession.ApplyChanges | cloze.mjs:39-47 | a run of change events never removes a blank |
| ClozeSession.ApplyChangesSnoc | cloze.mjs:43-46 | one more change event updates the map the earlier events produced |
| ClozeSession.ApplyChangesLatest | cloze.mjs:39-47 | after a run of changes each blank holds the value of its latest change, and a blank no change names keeps its earlier value or stays absent |
| ClozeSession.Render | cloze.mjs:70-77 | `loading` is checked before `error`; every other state falls through to the one remaining case, `FormView` |
| ClozeSession.ClozeQuestion.constructor | cloze.mjs:11-19 | starts with no question, no answers, loading, no error and no feedback |
| ClozeSession.ClozeQuestion.FetchQuestion | cloze.mjs:22-36 | clears `loading` on both paths; success sets `question`; failure sets `error` and leaves `question` |
| ClozeSession.ClozeQuestion.HandleChange | cloze.mjs:39-47 | sets `answer[name] := value`, keeps every other blank and every other field |
| ClozeSession.ClozeQuestion.HandleSubmit | cloze.mjs:50-62 | posts the current answers; success sets `feedback` to the response message; failure sets `error`; `answer` and `question` are unchanged |

## Left out

- Uniform randomness: `Math.floor(Math.random() * (i + 1))` is replaced by an arbitrary admissible choice `j` in `[0, i]`. That every order is equally likely cannot be stated; only that every order is reachable is proved.
- React hook lifecycle: effect timing, the initial empty values of `useShuffle` (`[]`) and `useCategories` (`{}`), re-running on dependency changes, and the hooks called inside `if (question)`.
- `categorize.jsx` declares `Item`, `Category` and `Question` with `const` twice at module scope (lines 49, 88 and 124, then 259, 267 and 276). That is an early `SyntaxError`, so the module does not load at all. The exercise view as written would also fail before any drag can happen. `useShuffle` and `useCategories` run only once `question` is truthy (categorize.jsx:185-187), so the render that first shows the exercise calls more hooks than the render before it, which React rejects. On that same render `categoryItems` is still `{}`, so `items.map` at categorize.jsx:116 reads `undefined`. The drag and move model describes the component logic as it behaves once these three problems are fixed.
- JSX markup, inline styles, and the `isDragging`, `isOver` and `canDrop` flags: presentation only.
- react-dnd internals: the drag type `"item"` and the target's `accept`, the monitor, and the HTML5 backend. Only their outcome enters the model: a drop result, or none.
- axios: a request becomes its outcome, either the parsed document or the error's `message`. A `null` body and a missing `message` field are not modelled.
- Concurrency: overlapping `moveItem` requests whose responses arrive out of order, where the last response received wins. Each network completion is modelled as one atomic transition.
- JavaScript object keys: the bucket object is modelled as a plain map. Names inherited from `Object.prototype` (such as `toString`) are not modelled.
- The Express and mongoose server code at the end of `categorize.jsx` only declares schemas and a connection, with no route logic.
- Server-side grading of cloze answers does not exist in this code.
- `e.preventDefault()` in `handleSubmit`.
- `cloze.mjs` ends after line 77, with no final `return` and no closing brace for `Question`. The imported `Form` and `Button` are never used. `ClozeSession.FormView` names the remaining render case, which the file never defines; closed as it stands, the function would return `undefined` there.

## Findings

| source | as written | input that shows it | evidently intended | confidence | as-written member | corrected member |
|---|---|---|---|---|---|---|
| categorize.jsx:117 | The extra copy of each item rendered inside its category's bucket gets no `moveItem` prop, but it is still a drag source. Their `end` handler calls `moveItem(item.id, dropResult.name)`, which throws a `TypeError`. | drag an item's copy shown inside a bucket and release it over a category | an item's copy inside a bucket moves like its copy in the item column | medium, not executed | DragDrop.BucketedItemDropThrows | DragDrop.IntendedDropAlwaysMoves |
