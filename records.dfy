/** The values that flow through one import: parsed rows, transaction drafts,
    categories and the transaction records handed to the store. */
module Records {

  datatype Option<+T> = None | Some(value: T)

  /** One parsed line of the CSV file (header skipped, fields trimmed by the
      parser): the four fields title, type, value and category, in that order.
      `type` is a Dafny keyword, so the second field is called `kind`. */
  datatype Row = Row(title: string, kind: string, value: string, category: string)

  /** A row that passed the required-field check. `value` is carried as the
      parser produced it: the import never converts it to a number. */
  datatype Draft = Draft(title: string, kind: string, value: string, category: string)

  /** A category as the import sees it: one already in storage (found by the
      lookup, with its id) or one built by the import for a missing title. */
  datatype Category = Existing(id: nat, title: string) | Created(title: string)

  /** The record handed to the transaction store: the draft's fields and the
      category it resolved to, if any. */
  datatype Transaction = Transaction(title: string, kind: string, value: string, category: Option<Category>)
}
