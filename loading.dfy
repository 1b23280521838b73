/** `Loading`: the 3D title of the loading screen, naming the current route. */
module Loading {
  import opened JsValues
  import Overlay

  /** The label the title's effect sets for a pathname; matching is exact. */
  function Title(pathname: string): (text: string)
    ensures text in {"Home", "About", "Collections", "Unknown"}
    ensures pathname == "/" ==> text == "Home"
    ensures pathname == "/about" ==> text == "About"
    ensures pathname == "/collections" ==> text == "Collections"
    ensures text == "Unknown" <==> pathname !in {"/", "/about", "/collections"}
  {
    if pathname == "/" then "Home"
    else if pathname == "/about" then "About"
    else if pathname == "/collections" then "Collections"
    else "Unknown"
  }

  /** The title's state before its effect has run. */
  const InitialTitle := "Collections"

  /** The text shown, given the pathname the effect last ran for (`None` before it has run). */
  function DisplayedTitle(lastPathname: Option<string>): (text: string)
    ensures text in {"Home", "About", "Collections", "Unknown"}
    ensures lastPathname.None? ==> text == "Collections"
  {
    match lastPathname
    case None => InitialTitle
    case Some(p) => Title(p)
  }

  /** The first letter in upper case (ASCII letters only). */
  function Capitalized(s: string): string
  {
    if s != [] && 'a' <= s[0] <= 'z' then [(s[0] as int - 32) as char] + s[1..] else s
  }

  /** Both titles classify pathnames the same way; this one only capitalises the label. */
  lemma TitleCapitalisesOverlay(pathname: string)
    ensures Title(pathname) == Capitalized(Overlay.Title(pathname))
  {
    if pathname == "/" {
      assert Capitalized("home") == "Home";
    } else if pathname == "/about" {
      assert Capitalized("about") == "About";
    } else if pathname == "/collections" {
      assert Capitalized("collections") == "Collections";
    } else {
      assert Capitalized("Unknown") == "Unknown";
    }
  }

  /** Unlike the overlay's, this title shows the same text before its effect as on `/collections`. */
  lemma InitialTitleIsCollections()
    ensures DisplayedTitle(None) == DisplayedTitle(Some("/collections"))
    ensures Overlay.DisplayedTitle(None) != Overlay.DisplayedTitle(Some("/collections"))
  {
  }
}
