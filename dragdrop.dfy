/** The drag-and-drop rule of the categorization exercise (categorize.jsx:49-121): an `Item`
    is a drag source, a `Category` a drop target, and the end of a drag decides whether a
    move is requested. The drag library's own bookkeeping is reduced to its outcome: the
    drop result of the target under the pointer, or none. */
module DragDrop {
  import opened Wrappers
  import opened Quiz

  /** The drag source object `{ type: "item", id: item._id, index }`. */
  datatype DragItem = DragItem(id: ItemId, index: nat)

  /** What a `Category`'s `drop` handler returns: `{ name: category.name }`. */
  datatype DropResult = DropResult(name: string)

  /** The `(itemId, categoryName)` pair handed to `moveItem`. */
  datatype MoveIntent = MoveIntent(itemId: ItemId, categoryName: string)

  /** How a drag ends: nothing happens, `moveItem` is called with an intent, or the rendered
      `Item` was given no `moveItem` prop and calling it throws a `TypeError`. */
  datatype DragOutcome = NoMove | Move(intent: MoveIntent) | MissingMoveCallback

  /** Where an `Item` is rendered: in the item column, which lists every item in shuffled order
      whatever its category, or as the extra copy inside the bucket of its category. */
  datatype Placement = ItemColumn | InBucket

  /** The drag source an `Item` at position `index` registers. */
  function DragSource(item: Item, index: nat): (d: DragItem)
    ensures d.id == item.id && d.index == index
  {
    DragItem(item.id, index)
  }

  /** `monitor.getDropResult()` at the end of a drag: the result of the target the item was
      released over, or `null` when it was released outside every category. */
  function DropResultOf(target: Option<Category>): (r: Option<DropResult>)
    ensures r.Some? <==> target.Some?
    ensures r.Some? ==> r.value.name == target.value.name
  {
    match target
    case None => None
    case Some(c) => Some(DropResult(c.name))
  }

  /** The `end` handler: `moveItem(item.id, dropResult.name)` runs only when both the drag item
      and a drop result are present, and then needs a `moveItem` prop to call. */
  function DragEnd(item: Option<DragItem>, drop: Option<DropResult>, hasMoveCallback: bool): (o: DragOutcome)
    ensures o.Move? <==> item.Some? && drop.Some? && hasMoveCallback
    ensures o.Move? ==> o.intent == MoveIntent(item.value.id, drop.value.name)
    ensures o.NoMove? <==> item.None? || drop.None?
  {
    if item.Some? && drop.Some? then
      if hasMoveCallback then Move(MoveIntent(item.value.id, drop.value.name)) else MissingMoveCallback
    else NoMove
  }

  /** As rendered: only the item column passes `moveItem` to its `Item`s; the copies inside a
      bucket are rendered without it. */
  function HasMoveCallback(p: Placement): (b: bool)
    ensures b <==> p == ItemColumn
  {
    p.ItemColumn?
  }

  /** Releasing an item-column copy over a category requests exactly one move of that item to
      that category; releasing it anywhere else requests none. */
  lemma ItemColumnDrop(item: Item, index: nat, target: Option<Category>)
    ensures var o := DragEnd(Some(DragSource(item, index)), DropResultOf(target), HasMoveCallback(ItemColumn));
            match target
            case Some(c) => o == Move(MoveIntent(item.id, c.name))
            case None => o == NoMove
  {
  }

  /** As written, dragging an item's copy out of a bucket onto a category reaches a `moveItem`
      that was never passed in. */
  lemma BucketedItemDropThrows(item: Item, index: nat, c: Category)
    ensures DragEnd(Some(DragSource(item, index)), DropResultOf(Some(c)), HasMoveCallback(InBucket)) == MissingMoveCallback
  {
  }

  /** The evidently intended rendering: every `Item`, wherever it is shown, receives `moveItem`,
      so an item's copy inside a bucket moves like its copy in the item column. */
  function HasMoveCallbackIntended(p: Placement): bool {
    true
  }

  /** With `moveItem` passed everywhere, a release over a category requests the move from either
      placement (so nothing throws), and a release outside every category requests nothing. */
  lemma IntendedDropAlwaysMoves(item: Item, index: nat, p: Placement, target: Option<Category>)
    ensures var o := DragEnd(Some(DragSource(item, index)), DropResultOf(target), HasMoveCallbackIntended(p));
            match target
            case Some(c) => o == Move(MoveIntent(item.id, c.name))
            case None => o == NoMove
  {
  }
}
