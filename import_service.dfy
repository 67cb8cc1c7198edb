/** The import itself: collect the rows, reconcile the category names with
    storage, create the missing categories and materialize the transactions.
    Storage is the sequence of stored categories; the CSV parser's output is
    the sequence of rows. */
module ImportService {
  import opened Records
  import opened ArrayOps
  import opened Collector
  import opened Reconciler
  import opened Materializer

  /** Every collected name resolves in `[...newCategories, ...existentCategories]`:
      to the first existing category with that title when there is one,
      otherwise to the category created for it. */
  lemma ResolvesAgainstAll(categories: seq<string>, existent: seq<Category>, name: string)
    requires name in categories
    ensures name in Titles(existent) ==> FindCategory(existent, name).Some?
    ensures FindCategory(NewCategories(AddCategoryTitles(categories, Titles(existent))) + existent, name) ==
      if name in Titles(existent) then FindCategory(existent, name) else Some(Created(name))
  {
    var created := NewCategories(AddCategoryTitles(categories, Titles(existent)));
    FindCategoryInConcat(created, existent, name);
  }

  /** The categories `find` returns for the collected names, followed after
      the new ones, resolve each collected name to the first stored category
      with that title when storage has one, otherwise to the new category. */
  lemma ResolvesAgainstStorage(storage: seq<Category>, categories: seq<string>, name: string)
    requires name in categories
    ensures var existent := FindByTitles(storage, categories);
      var found := FindCategory(NewCategories(AddCategoryTitles(categories, Titles(existent))) + existent, name);
      && found.Some? && found.value.title == name
      && (name in Titles(storage) ==> found == FindCategory(storage, name))
      && (name !in Titles(storage) ==> found == Some(Created(name)))
  {
    ResolvesAgainstAll(categories, FindByTitles(storage, categories), name);
    LookupFindsStoredTitle(storage, categories, name);
    LookupKeepsFirstMatch(storage, categories, name);
  }

  /** The categories created for a batch: one per collected name that storage
      does not hold, none already stored, each title once, in the order the
      names first occur. */
  lemma CreatedCategories(storage: seq<Category>, categories: seq<string>)
    ensures var created := NewCategories(AddCategoryTitles(categories, Titles(FindByTitles(storage, categories))));
      && (forall c :: c in created ==> c.Created? && c.title in categories && c.title !in Titles(storage))
      && (forall name :: name in categories && name !in Titles(storage) ==> Created(name) in created)
      && (forall j, k :: 0 <= j < k < |created| ==> created[j].title != created[k].title)
      && (forall j, k :: 0 <= j < k < |created| ==> IndexOf(categories, created[j].title) < IndexOf(categories, created[k].title))
  {
    var existentTitles := Titles(FindByTitles(storage, categories));
    var add := AddCategoryTitles(categories, existentTitles);
    var created := NewCategories(add);
    NoStoredTitleCreated(storage, categories);
    AddCategoryTitlesInFirstOccurrenceOrder(categories, existentTitles);
    assert forall j :: 0 <= j < |created| ==> created[j].title == add[j];
    forall name | name in categories && name !in Titles(storage) ensures name in add {
      LookupFindsStoredTitle(storage, categories, name);
    }
  }

  /** `ImportTransactionsService.execute`: returns the categories it creates
      and the transactions it creates, in row order. */
  method Execute(rows: seq<Row>, storage: seq<Category>) returns (newCategories: seq<Category>, created: seq<Transaction>)
    // stored categories carry the id storage gave them
    requires forall c :: c in storage ==> c.Existing?
    // one transaction per complete row, in row order, fields unchanged
    ensures |created| == |Drafts(rows)|
    ensures forall i :: 0 <= i < |created| ==>
      created[i].title == Drafts(rows)[i].title && created[i].kind == Drafts(rows)[i].kind &&
      created[i].value == Drafts(rows)[i].value
    // every transaction gets a category with its name ...
    ensures forall i :: 0 <= i < |created| ==>
      created[i].category.Some? && created[i].category.value.title == Drafts(rows)[i].category
    // ... the first stored one when the name is stored ...
    ensures forall i :: 0 <= i < |created| && Drafts(rows)[i].category in Titles(storage) ==>
      created[i].category == FindCategory(storage, Drafts(rows)[i].category)
    // ... otherwise the one created for it
    ensures forall i :: 0 <= i < |created| && Drafts(rows)[i].category !in Titles(storage) ==>
      created[i].category == Some(Created(Drafts(rows)[i].category))
    // the created categories: one per missing name, none already stored
    ensures forall c :: c in newCategories ==>
      c.Created? && c.title in CategoryNames(Drafts(rows)) && c.title !in Titles(storage)
    ensures forall c :: c in newCategories ==> c !in storage
    ensures forall name :: name in CategoryNames(Drafts(rows)) && name !in Titles(storage) ==>
      Created(name) in newCategories
    ensures forall j, k :: 0 <= j < k < |newCategories| ==> newCategories[j].title != newCategories[k].title
    // none at all when every collected name is stored (or no row was kept)
    ensures (forall name :: name in CategoryNames(Drafts(rows)) ==> name in Titles(storage)) ==> newCategories == []
    // in the order in which their names first occur in the rows
    ensures forall j, k :: 0 <= j < k < |newCategories| ==>
      IndexOf(CategoryNames(Drafts(rows)), newCategories[j].title) <
      IndexOf(CategoryNames(Drafts(rows)), newCategories[k].title)
  {
    var transactions, categories := Collect(rows);
    var existentCategories := FindByTitles(storage, categories);
    var addCategoryTitles := AddCategoryTitles(categories, Titles(existentCategories));
    newCategories := NewCategories(addCategoryTitles);
    var allCategories := newCategories + existentCategories;
    created := Materialize(transactions, allCategories);

    assert categories == CategoryNames(transactions);
    forall i | 0 <= i < |created|
      ensures created[i].category.Some? && created[i].category.value.title == transactions[i].category
      ensures transactions[i].category in Titles(storage) ==>
        created[i].category == FindCategory(storage, transactions[i].category)
      ensures transactions[i].category !in Titles(storage) ==>
        created[i].category == Some(Created(transactions[i].category))
    {
      assert transactions[i].category == categories[i];
      ResolvesAgainstStorage(storage, categories, transactions[i].category);
    }
    CreatedCategories(storage, categories);
    if forall name :: name in categories ==> name in Titles(storage) {
      NothingToCreate(storage, categories);
    }
  }

  /** A batch naming one new category twice and another once, into an empty
      store: two categories are created and both rows naming `Food` share
      the one created for it. */
  method SharedNewCategory() {
    var rows := [Row("Salary", "income", "5000", "Job"), Row("Lunch", "outcome", "20", "Food"),
                 Row("Coffee", "outcome", "5", "Food")];
    var newCategories, created := Execute(rows, []);
    assert rows[..2][..1] == rows[..1] && rows[..1][..0] == [] && rows[..3] == rows;
    assert Drafts(rows) == [DraftOf(rows[0]), DraftOf(rows[1]), DraftOf(rows[2])];
    assert created[1].category == created[2].category == Some(Created("Food"));
    assert created[0].category == Some(Created("Job"));
    assert CategoryNames(Drafts(rows)) == ["Job", "Food", "Food"];
    assert Titles([]) == [];
    assert Created("Job") in newCategories && Created("Food") in newCategories;
    assert forall c :: c in newCategories ==> c == Created("Job") || c == Created("Food");
  }

  /** A row with an empty title is dropped; the rest of the batch goes on,
      and a name already stored is reused rather than created. */
  method StoredCategoryReused() {
    var food := Existing(7, "Food");
    var rows := [Row("", "income", "5000", "Job"), Row("Lunch", "outcome", "20", "Food")];
    var newCategories, created := Execute(rows, [food]);
    assert rows[..1][..0] == [] && rows[..2] == rows;
    assert Drafts(rows) == [DraftOf(rows[1])];
    assert Titles([food]) == ["Food"];
    assert |created| == 1 && created[0].category == Some(food);
    assert CategoryNames(Drafts(rows)) == ["Food"];
    assert newCategories == [];
  }
}
