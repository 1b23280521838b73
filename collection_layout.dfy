/**
 * `CollectionLayout`: the page around one collection. It admits only a
 * route id that is in the sorted id list, and its previous and next
 * buttons step through that list with wrap-around.
 */
module CollectionLayout {
  import opened JsValues
  import Arith

  /** What the layout renders: a redirect (and nothing else), or the page. */
  datatype View = Redirect(path: string) | Page

  /** The route id passes the guard: it is defined, non-empty and listed. */
  predicate Admitted(id: Option<string>, d: seq<string>)
  {
    Truthy(id) && id.value in d
  }

  /** The guard: an unknown or missing id navigates to `/404` and renders nothing. */
  function Render(id: Option<string>, d: seq<string>): (v: View)
    ensures v.Page? <==> Admitted(id, d)
    ensures v.Redirect? ==> v.path == "/404"
  {
    if !Truthy(id) || id.value !in d then Redirect("/404") else Page
  }

  /**
   * `next()`: `None` when it returns without navigating, otherwise the path
   * it navigates to (`${to}`, which is "undefined" when `to` is).
   */
  function Next(id: Option<string>, d: seq<string>): (r: Option<string>)
    ensures r.None? <==> !Truthy(id)
    ensures Admitted(id, d) ==> r.Some? && r.value in d
  {
    if !Truthy(id) then None
    else
      var index := IndexOf(d, id.value);
      var to := if index == |d| - 1 then At(d, 0) else At(d, index + 1);
      Some(Interpolate(to))
  }

  /** `prev()`, with the same reading of its result as `Next`. */
  function Prev(id: Option<string>, d: seq<string>): (r: Option<string>)
    ensures r.None? <==> !Truthy(id)
    ensures Admitted(id, d) ==> r.Some? && r.value in d
  {
    if !Truthy(id) then None
    else
      var index := IndexOf(d, id.value);
      var to := if index == 0 then At(d, |d| - 1) else At(d, index - 1);
      Some(Interpolate(to))
  }

  /** `next` moves one place forward round the list from the first occurrence of the id. */
  lemma NextWraps(id: Option<string>, d: seq<string>)
    requires Admitted(id, d)
    ensures var i := IndexOf(d, id.value);
      0 <= i < |d| && Next(id, d) == Some(d[Arith.Succ(i, |d|)])
    ensures IndexOf(d, id.value) == |d| - 1 ==> Next(id, d) == Some(d[0])
  {
  }

  /** `prev` moves one place back round the list from the first occurrence of the id. */
  lemma PrevWraps(id: Option<string>, d: seq<string>)
    requires Admitted(id, d)
    ensures var i := IndexOf(d, id.value);
      0 <= i < |d| && Prev(id, d) == Some(d[Arith.Pred(i, |d|)])
    ensures IndexOf(d, id.value) == 0 ==> Prev(id, d) == Some(d[|d| - 1])
  {
  }

  /** No id occurs twice. */
  predicate Distinct(d: seq<string>)
  {
    forall p, q :: 0 <= p < q < |d| ==> d[p] != d[q]
  }

  /** In a list of distinct ids, the first occurrence of `d[i]` is `i`. */
  lemma IndexOfDistinct(d: seq<string>, i: nat)
    requires Distinct(d) && i < |d|
    ensures IndexOf(d, d[i]) == i
  {
  }

  /** With distinct, non-empty ids, `prev` undoes `next` and `next` undoes `prev`. */
  lemma NextPrevInverse(x: string, d: seq<string>)
    requires Distinct(d) && "" !in d && x in d
    ensures Prev(Next(Some(x), d), d) == Some(x)
    ensures Next(Prev(Some(x), d), d) == Some(x)
  {
    var i, n := IndexOf(d, x), |d|;
    var j, h := Arith.Succ(i, n), Arith.Pred(i, n);
    NextWraps(Some(x), d);
    PrevWraps(Some(x), d);
    IndexOfDistinct(d, j);
    IndexOfDistinct(d, h);
    PrevWraps(Some(d[j]), d);
    NextWraps(Some(d[h]), d);
    Arith.SuccPredInverse(i, n);
  }

  /**
   * Duplicate ids break the inverse: `indexOf` finds the first "a", so
   * `next` from "a" lands on the second "a" and `prev` from there goes to "b".
   */
  lemma DuplicatesBreakInverse()
    ensures Next(Some("a"), ["a", "a", "b"]) == Some("a")
    ensures Prev(Some("a"), ["a", "a", "b"]) == Some("b")
    ensures Prev(Next(Some("a"), ["a", "a", "b"]), ["a", "a", "b"]) != Some("a")
  {
    assert IndexOf(["a", "a", "b"], "a") == 0;
  }

  /** The route after pressing the next button `k` times. */
  function NextTimes(id: Option<string>, d: seq<string>, k: nat): Option<string>
    decreases k
  {
    if k == 0 then id else NextTimes(Next(id, d), d, k - 1)
  }

  /** With distinct, non-empty ids, `k` presses of next advance `k` places round the list. */
  lemma {:induction false} NextTimesAdvances(d: seq<string>, i: nat, k: nat)
    requires Distinct(d) && "" !in d && i < |d|
    ensures NextTimes(Some(d[i]), d, k) == Some(d[Arith.Advance(i, k, |d|)])
    decreases k
  {
    if k > 0 {
      IndexOfDistinct(d, i);
      NextWraps(Some(d[i]), d);
      NextTimesAdvances(d, Arith.Succ(i, |d|), k - 1);
    }
  }

  /** With distinct, non-empty ids, pressing next once per collection returns to the start. */
  lemma NextCycle(x: string, d: seq<string>)
    requires Distinct(d) && "" !in d && x in d
    ensures NextTimes(Some(x), d, |d|) == Some(x)
  {
    var i := IndexOf(d, x);
    NextTimesAdvances(d, i, |d|);
    Arith.FullTurn(i, |d|);
  }
}
