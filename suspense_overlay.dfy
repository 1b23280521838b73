/**
 * `SuspenseOverlay`: the black screen shown while the scene's assets load.
 * It shows the percentage loaded, plays its `load-in` animation once
 * everything is in, and hides itself when that animation ends.
 */
module SuspenseOverlay {
  import opened JsValues
  import opened Dom

  const LoadIn := "load-in"
  const LoadingClass := "loading"
  const TopHidden := "top-[100%]"

  /** The class names the overlay element is rendered with. */
  const ClassName: seq<string> := ["fixed", "w-full", "h-full", "top-0", "left-0", "z-[99999]", "bg-black"]

  /** `doneLoading`: some assets are tracked and all of them have loaded. */
  function DoneLoading(loaded: nat, total: nat): (done: bool)
    ensures done ==> 0 < loaded
    ensures total == 0 ==> !done
    ensures done <==> 0 < total && loaded == total
  {
    total > 0 && loaded == total
  }

  /**
   * The class set after `handleAnimationEnd`: hidden below the screen,
   * `load-in` and `loading` gone, nothing else touched.
   */
  function AfterAnimation(classes: set<string>): (r: set<string>)
    ensures TopHidden in r && LoadIn !in r && LoadingClass !in r
    ensures forall c :: c != TopHidden && c != LoadIn && c != LoadingClass ==> (c in r <==> c in classes)
  {
    classes + {TopHidden} - {LoadIn} - {LoadingClass}
  }

  /**
   * The `useEffect` on `doneLoading`: when loading is done it starts the
   * `load-in` animation and registers the fresh `handleAnimationEnd`
   * closure, identified by `handler`; otherwise it does nothing.
   */
  method LoadEffect(el: Element, doneLoading: bool, handler: nat)
    modifies el
    ensures doneLoading ==> el.classes == old(el.classes) + {LoadIn}
    ensures doneLoading ==> handler in el.listeners
    ensures doneLoading ==>
      el.listeners == (if handler in old(el.listeners) then old(el.listeners) else old(el.listeners) + [handler])
    ensures !doneLoading ==> el.classes == old(el.classes) && el.listeners == old(el.listeners)
    ensures Distinct(old(el.listeners)) ==> Distinct(el.listeners)
  {
    if doneLoading {
      el.AddClass(LoadIn);
      el.AddAnimationEndListener(handler);
    }
  }

  /** `handleAnimationEnd`: updates the classes, then unregisters itself. */
  method HandleAnimationEnd(el: Element, handler: nat)
    modifies el
    ensures el.classes == AfterAnimation(old(el.classes))
    ensures el.listeners == Without(old(el.listeners), handler)
    ensures handler !in el.listeners
    ensures Distinct(old(el.listeners)) ==> Distinct(el.listeners)
  {
    el.AddClass(TopHidden);
    el.RemoveClass(LoadIn);
    el.RemoveClass(LoadingClass);
    el.RemoveAnimationEndListener(handler);
  }

  /** A second run of the handler's class changes changes nothing. */
  lemma AfterAnimationIdempotent(classes: set<string>)
    ensures AfterAnimation(AfterAnimation(classes)) == AfterAnimation(classes)
  {
  }

  /**
   * An `animationend` event: every listener registered when it fires (all
   * of them `handleAnimationEnd` closures) runs once, in registration
   * order, and each unregisters itself, so none is left to run again.
   */
  method DispatchAnimationEnd(el: Element)
    requires Distinct(el.listeners)
    modifies el
    ensures el.listeners == []
    ensures el.classes == if old(el.listeners) == [] then old(el.classes) else AfterAnimation(old(el.classes))
  {
    var pending := el.listeners;
    while pending != []
      invariant el.listeners == pending && Distinct(pending)
      invariant el.classes == if |pending| == |old(el.listeners)| then old(el.classes) else AfterAnimation(old(el.classes))
      invariant |pending| <= |old(el.listeners)|
      decreases |pending|
    {
      WithoutHead(pending);
      AfterAnimationIdempotent(old(el.classes));
      HandleAnimationEnd(el, pending[0]);
      pending := pending[1..];
    }
  }

  /**
   * The whole lifecycle on the freshly rendered element: after `load-in`
   * and the animation end, the element has exactly its rendered classes
   * plus `top-[100%]`; `loading` was never there, and `bg-black` stays.
   */
  lemma LoadLifecycle()
    ensures var rendered := set c | c in ClassName;
      LoadingClass !in rendered &&
      AfterAnimation(rendered + {LoadIn}) == rendered + {TopHidden} &&
      "bg-black" in AfterAnimation(rendered + {LoadIn})
  {
    var rendered := set c | c in ClassName;
    assert LoadIn !in rendered && LoadingClass !in rendered && "bg-black" in rendered;
  }

  /** `{percentage ? percentage : "0"}`: a falsy percentage (0 or NaN) shows "0". */
  function PercentageText(percentage: JsNumber): (text: string)
    ensures text == "0" <==> percentage == Finite(0) || percentage == NaN
    ensures percentage == Infinity ==> text == "Infinity"
  {
    if NumberTruthy(percentage) then NumberToString(percentage) else "0"
  }
}
