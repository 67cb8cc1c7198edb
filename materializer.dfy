/** Materialization: each draft becomes a transaction record carrying the
    draft's fields and the first category whose title is the draft's
    category name. */
module Materializer {
  import opened Records
  import opened Reconciler

  /** The position `find(category => category.title === name)` stops at, or
      -1 when no category has that title. */
  function FindIndex(all: seq<Category>, name: string): (k: int)
    ensures -1 <= k < |all|
    ensures k >= 0 ==> all[k].title == name && forall j :: 0 <= j < k ==> all[j].title != name
    ensures k < 0 ==> forall j :: 0 <= j < |all| ==> all[j].title != name
  {
    if all == [] then -1
    else if all[0].title == name then 0
    else
      var k := FindIndex(all[1..], name);
      if k < 0 then -1 else k + 1
  }

  /** `all.find(category => category.title === name)`, with `undefined` as None. */
  function FindCategory(all: seq<Category>, name: string): (found: Option<Category>)
    ensures found.None? <==> forall c :: c in all ==> c.title != name
    ensures found.Some? ==> found.value.title == name
    ensures found.Some? ==>
      exists k :: 0 <= k < |all| && all[k] == found.value && forall j :: 0 <= j < k ==> all[j].title != name
  {
    var k := FindIndex(all, name);
    if k < 0 then None else Some(all[k])
  }

  /** `transactions.map(...)`: one record per draft, same order. */
  function Materialize(drafts: seq<Draft>, all: seq<Category>): (created: seq<Transaction>)
    ensures |created| == |drafts|
    ensures forall i :: 0 <= i < |drafts| ==>
      created[i].title == drafts[i].title && created[i].kind == drafts[i].kind &&
      created[i].value == drafts[i].value && created[i].category == FindCategory(all, drafts[i].category)
  {
    seq(|drafts|, i requires 0 <= i < |drafts| =>
      Transaction(drafts[i].title, drafts[i].kind, drafts[i].value, FindCategory(all, drafts[i].category)))
  }

  /** Searching a concatenation finds the first match of the front part, and
      only when there is none the first match of the back part. */
  lemma {:induction false} FindIndexInConcat(front: seq<Category>, back: seq<Category>, name: string)
    ensures FindIndex(front + back, name) ==
      if FindIndex(front, name) >= 0 then FindIndex(front, name)
      else if FindIndex(back, name) >= 0 then |front| + FindIndex(back, name)
      else -1
  {
    if front == [] {
      assert front + back == back;
    } else {
      assert (front + back)[1..] == front[1..] + back;
      FindIndexInConcat(front[1..], back, name);
    }
  }

  /** In `[...newCategories, ...existentCategories]` a new category with the
      name wins over an existing one. */
  lemma FindCategoryInConcat(front: seq<Category>, back: seq<Category>, name: string)
    ensures FindCategory(front + back, name) ==
      if FindCategory(front, name).Some? then FindCategory(front, name) else FindCategory(back, name)
  {
    FindIndexInConcat(front, back, name);
  }

  /** A leading category with another title does not change the first match. */
  lemma SkipOtherTitle(all: seq<Category>, name: string)
    requires all != [] && all[0].title != name
    ensures FindCategory(all, name) == FindCategory(all[1..], name)
  {
  }

  /** Looking a name up among the categories `find` returned for a batch
      that names it gives the same first match as looking it up in the whole
      store: the lookup keeps every stored category with that title. */
  lemma {:induction false} LookupKeepsFirstMatch(storage: seq<Category>, names: seq<string>, name: string)
    requires name in names
    ensures FindCategory(FindByTitles(storage, names), name) == FindCategory(storage, name)
  {
    if storage != [] {
      var found := FindByTitles(storage, names);
      var rest := FindByTitles(storage[1..], names);
      LookupKeepsFirstMatch(storage[1..], names, name);
      if storage[0].title == name {
        assert found[0] == storage[0];
        assert FindIndex(found, name) == 0 && FindIndex(storage, name) == 0;
      } else {
        SkipOtherTitle(storage, name);
        if storage[0].title in names {
          assert found == [storage[0]] + rest;
          assert found[1..] == rest;
          SkipOtherTitle(found, name);
        } else {
          assert found == rest;
        }
      }
    }
  }
}
