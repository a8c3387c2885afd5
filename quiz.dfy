/** The documents the categorization exercise works on (categorize.jsx). */
module Quiz {

  /** The item's `_id` as sent by the store. */
  type ItemId = string

  /** A sortable unit; `category` is its current assignment as last confirmed by the store. */
  datatype Item = Item(id: ItemId, name: string, category: string)

  /** A named drop target / bucket. */
  datatype Category = Category(name: string)

  /** The question document returned by `GET /api/question` and `PUT /api/question`. */
  datatype Exercise = Exercise(title: string, description: string, items: seq<Item>, categories: seq<Category>)

  /** The set of declared category names. */
  function Names(categories: seq<Category>): set<string> {
    set c | c in categories :: c.name
  }
}
