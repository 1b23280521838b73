/**
 * `Collection`: the page of one collection, showing the route id as its
 * heading and the title of the matching record as its description.
 */
module Collection {
  import opened JsValues
  import opened CollectionsData

  const NoDescription := "No description available"

  /** The item matches the route id (`item.id === id`; never when `id` is undefined). */
  predicate Matches(item: Item, id: Option<string>)
  {
    id.Some? && item.id == id.value
  }

  /** `data.find((item) => item.id === id)`: the first matching item, if any. */
  function Find(data: seq<Item>, id: Option<string>): (r: Option<Item>)
    ensures r.None? <==> forall k :: 0 <= k < |data| ==> !Matches(data[k], id)
    ensures r.Some? ==> r.value in data && Matches(r.value, id)
  {
    if data == [] then None
    else if Matches(data[0], id) then Some(data[0])
    else Find(data[1..], id)
  }

  /** When `k` is the first matching position, `find` returns the item there. */
  lemma {:induction false} FindFirst(data: seq<Item>, id: Option<string>, k: nat)
    requires k < |data| && Matches(data[k], id)
    requires forall m :: 0 <= m < k ==> !Matches(data[m], id)
    ensures Find(data, id) == Some(data[k])
  {
    if k > 0 {
      FindFirst(data[1..], id, k - 1);
    }
  }

  /** What the page shows. */
  datatype CollectionPage = CollectionPage(heading: string, description: string)

  /** The heading is the route id as given; the description is `find(...)?.title || "No description available"`. */
  function Render(data: seq<Item>, id: Option<string>): (page: CollectionPage)
    ensures id.Some? ==> page.heading == id.value
    ensures id.None? ==> page.heading == ""
    ensures page.description != ""
    ensures page.description == NoDescription <==>
      (Find(data, id).None? || Find(data, id).value.title in {"", NoDescription})
  {
    var description :=
      match Find(data, id)
      case Some(item) => if item.title != "" then item.title else NoDescription
      case None => NoDescription;
    CollectionPage(match id case Some(s) => s case None => "", description)
  }

  /**
   * The description is the title of the first item with the route id, or
   * the fallback when there is none or its title is empty.
   */
  lemma DescriptionOfFirstMatch(data: seq<Item>, id: Option<string>, k: nat)
    requires k < |data| && Matches(data[k], id)
    requires forall m :: 0 <= m < k ==> !Matches(data[m], id)
    ensures Render(data, id).description ==
      if data[k].title != "" then data[k].title else NoDescription
  {
    FindFirst(data, id, k);
  }

  /** With no item carrying the route id, the description is the fallback. */
  lemma DescriptionWithoutMatch(data: seq<Item>, id: Option<string>)
    requires forall k :: 0 <= k < |data| ==> !Matches(data[k], id)
    ensures Render(data, id).description == NoDescription
  {
  }

  /** Of two items sharing the route id, the earlier one supplies the description. */
  lemma FirstDuplicateWins()
    ensures Render([Item("a", "first"), Item("a", "second")], Some("a")).description == "first"
    ensures Render([Item("a", ""), Item("a", "second")], Some("a")).description == NoDescription
  {
    FindFirst([Item("a", "first"), Item("a", "second")], Some("a"), 0);
    FindFirst([Item("a", ""), Item("a", "second")], Some("a"), 0);
  }
}
