/**
 * `Overlay`: the full-screen layer shown during route transitions, and its
 * 3D title naming the current route.
 */
module Overlay {
  import opened JsValues
  import opened Dom

  const Clip := "clip"
  const TopHidden := "top-[100%]"

  /** The class names the overlay element is rendered with. */
  const ClassName: seq<string> := ["fixed", "w-full", "h-full", "top-0", "left-0", "z-[99999]", "loading"]

  /**
   * The class set after the transition effect: `clip` while transitioning,
   * `top-[100%]` otherwise, and no other class touched.
   */
  function TransitionClasses(classes: set<string>, transitioning: bool): (r: set<string>)
    ensures transitioning ==> Clip in r && TopHidden !in r
    ensures !transitioning ==> TopHidden in r && Clip !in r
    ensures forall c :: c != Clip && c != TopHidden ==> (c in r <==> c in classes)
  {
    if transitioning then classes - {TopHidden} + {Clip} else classes - {Clip} + {TopHidden}
  }

  /** The `useEffect` on `transitioning`, applied to the element's class list in place. */
  method TransitionEffect(el: Element, transitioning: bool)
    modifies el
    ensures el.classes == TransitionClasses(old(el.classes), transitioning)
    ensures el.listeners == old(el.listeners)
  {
    if transitioning {
      el.RemoveClass(TopHidden);
      el.AddClass(Clip);
    } else {
      el.RemoveClass(Clip);
      el.AddClass(TopHidden);
    }
  }

  /** Running the effect again with the same flag changes nothing. */
  lemma TransitionIdempotent(classes: set<string>, transitioning: bool)
    ensures TransitionClasses(TransitionClasses(classes, transitioning), transitioning)
      == TransitionClasses(classes, transitioning)
  {
  }

  /** On the freshly rendered element the effect only adds its one class; `fixed`, `loading` and the layout classes stay. */
  lemma TransitionFromRendered(transitioning: bool)
    ensures var rendered := set c | c in ClassName;
      TransitionClasses(rendered, transitioning) == rendered + {if transitioning then Clip else TopHidden}
  {
    var rendered := set c | c in ClassName;
    assert Clip !in rendered && TopHidden !in rendered;
  }

  /** The label the title's effect sets for a pathname; matching is exact. */
  function Title(pathname: string): (text: string)
    ensures text in {"home", "about", "collections", "Unknown"}
    ensures pathname == "/" ==> text == "home"
    ensures pathname == "/about" ==> text == "about"
    ensures pathname == "/collections" ==> text == "collections"
    ensures text == "Unknown" <==> pathname !in {"/", "/about", "/collections"}
  {
    if pathname == "/" then "home"
    else if pathname == "/about" then "about"
    else if pathname == "/collections" then "collections"
    else "Unknown"
  }

  /** The title's state before its effect has run. */
  const InitialTitle := "Collections"

  /** The text shown, given the pathname the effect last ran for (`None` before it has run). */
  function DisplayedTitle(lastPathname: Option<string>): (text: string)
    ensures text in {"Collections", "home", "about", "collections", "Unknown"}
    ensures text == "Collections" <==> lastPathname.None?
  {
    match lastPathname
    case None => InitialTitle
    case Some(p) => Title(p)
  }

  /** Near misses of a known route (a trailing slash, other casing, the empty path) are "Unknown". */
  lemma TitleIsExact()
    ensures Title("/about/") == "Unknown"
    ensures Title("/About") == "Unknown"
    ensures Title("") == "Unknown"
    ensures Title("/collections/a") == "Unknown"
  {
  }
}
