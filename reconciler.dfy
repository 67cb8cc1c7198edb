/** Category reconciliation: look the collected names up in storage, and
    compute the titles of the categories to create, each once. */
module Reconciler {
  import opened Records
  import opened ArrayOps

  /** `categories.map(category => category.title)`: one title per category,
      each the title of some category. */
  function Titles(categories: seq<Category>): (titles: seq<string>)
    ensures |titles| == |categories|
    ensures forall t :: t in titles ==> exists c :: c in categories && c.title == t
  {
    seq(|categories|, i requires 0 <= i < |categories| => categories[i].title)
  }

  /** The storage lookup `find({ where: { title: In(names) } })`: the stored
      categories whose title is one of names, in storage order. */
  function FindByTitles(storage: seq<Category>, names: seq<string>): (found: seq<Category>)
    ensures forall c :: c in found <==> c in storage && c.title in names
    ensures |found| <= |storage|
  {
    if storage == [] then []
    else (if storage[0].title in names then [storage[0]] else []) + FindByTitles(storage[1..], names)
  }

  /** The titles to create: the collected names that are not the title of a
      category found in storage, without repeats. */
  function AddCategoryTitles(categories: seq<string>, existentTitles: seq<string>): (add: seq<string>)
    ensures forall t :: t in add <==> t in categories && t !in existentTitles
    ensures Distinct(add)
  {
    KeepFirstOccurrences(Exclude(categories, existentTitles))
  }

  /** `categoryRepository.create(titles.map(title => ({ title })))`: exactly
      one new category per title, none carrying an id, no two with the same
      title when the titles have no repeats. */
  function NewCategories(titles: seq<string>): (created: seq<Category>)
    ensures |created| == |titles|
    ensures forall c :: c in created ==> c.Created? && c.title in titles
    ensures forall t :: t in titles ==> Created(t) in created
    ensures Distinct(titles) ==> forall j, k :: 0 <= j < k < |created| ==> created[j].title != created[k].title
  {
    var created := seq(|titles|, i requires 0 <= i < |titles| => Created(titles[i]));
    assert forall i :: 0 <= i < |titles| ==> created[i] == Created(titles[i]) && created[i] in created;
    created
  }

  /** The title of each of some categories is among their titles. */
  lemma TitleOf(categories: seq<Category>, c: Category)
    requires c in categories
    ensures c.title in Titles(categories)
  {
    var i :| 0 <= i < |categories| && categories[i] == c;
    assert Titles(categories)[i] == c.title;
  }

  /** The titles to create are listed in the order in which they first occur
      among the collected names. */
  lemma AddCategoryTitlesInFirstOccurrenceOrder(categories: seq<string>, existentTitles: seq<string>)
    ensures var add := AddCategoryTitles(categories, existentTitles);
      forall j, k :: 0 <= j < k < |add| ==> IndexOf(categories, add[j]) < IndexOf(categories, add[k])
  {
    var add := AddCategoryTitles(categories, existentTitles);
    var kept := Exclude(categories, existentTitles);
    forall j, k | 0 <= j < k < |add|
      ensures IndexOf(categories, add[j]) < IndexOf(categories, add[k])
    {
      assert IndexOf(kept, add[j]) < IndexOf(kept, add[k]);
      if IndexOf(categories, add[k]) < IndexOf(categories, add[j]) {
        ExcludePreservesOrder(categories, existentTitles, add[k], add[j]);
      }
    }
  }

  /** One title per distinct collected name that is not already stored: two
      rows naming the same new category yield one new category. */
  lemma OneTitlePerMissingName(categories: seq<string>, existentTitles: seq<string>)
    ensures |AddCategoryTitles(categories, existentTitles)| ==
            |(set t | t in categories && t !in existentTitles)|
  {
    var add := AddCategoryTitles(categories, existentTitles);
    DistinctCardinality(add);
    assert (set t | t in add) == (set t | t in categories && t !in existentTitles);
  }

  /** For a name that was looked up, the lookup finds it exactly when storage
      holds a category with that title. */
  lemma LookupFindsStoredTitle(storage: seq<Category>, names: seq<string>, name: string)
    requires name in names
    ensures name in Titles(FindByTitles(storage, names)) <==> name in Titles(storage)
  {
    var found := FindByTitles(storage, names);
    if name in Titles(storage) {
      var i :| 0 <= i < |storage| && Titles(storage)[i] == name;
      TitleOf(found, storage[i]);
    }
    if name in Titles(found) {
      var i :| 0 <= i < |found| && Titles(found)[i] == name;
      TitleOf(storage, found[i]);
    }
  }

  /** No title the import creates is already the title of a stored category,
      so re-importing a name that exists never duplicates it. */
  lemma NoStoredTitleCreated(storage: seq<Category>, categories: seq<string>)
    ensures forall t :: t in AddCategoryTitles(categories, Titles(FindByTitles(storage, categories))) ==>
      t !in Titles(storage)
  {
    var found := FindByTitles(storage, categories);
    forall t | t in AddCategoryTitles(categories, Titles(found)) ensures t !in Titles(storage) {
      LookupFindsStoredTitle(storage, categories, t);
    }
  }

  /** When every collected name is already stored (in particular when no row
      was collected) there is nothing to create. */
  lemma NothingToCreate(storage: seq<Category>, categories: seq<string>)
    requires forall name :: name in categories ==> name in Titles(storage)
    ensures AddCategoryTitles(categories, Titles(FindByTitles(storage, categories))) == []
  {
    var add := AddCategoryTitles(categories, Titles(FindByTitles(storage, categories)));
    if add != [] {
      LookupFindsStoredTitle(storage, categories, add[0]);
      assert false;
    }
  }
}
