/**
 * The root component's page switch: the current page id chooses which page
 * is shown, and an id it does not know shows the home page.
 */
module Router {
  /** The six pages of the site. */
  datatype Page = HomePage | PetsPage | RegisterPage | ReleasePage | AdoptPage | ContactPage

  /** The id under which each page is selected. */
  function PageId(p: Page): string {
    match p
    case HomePage => "home"
    case PetsPage => "pets"
    case RegisterPage => "register"
    case ReleasePage => "release"
    case AdoptPage => "adopt"
    case ContactPage => "contact"
  }

  /** The id belongs to one of the pages. */
  predicate KnownId(id: string) {
    exists p: Page :: PageId(p) == id
  }

  /** `renderPage()`: the page whose id is current; any other id falls back
      to the home page. */
  function RenderPage(id: string): (p: Page)
    ensures KnownId(id) ==> PageId(p) == id
    ensures p != HomePage ==> PageId(p) == id
  {
    match id
    case "home" => HomePage
    case "pets" => PetsPage
    case "register" => RegisterPage
    case "release" => ReleasePage
    case "adopt" => AdoptPage
    case "contact" => ContactPage
    case _ =>
      assert forall p: Page :: PageId(p) != id;
      HomePage
  }

  /** Distinct pages have distinct ids, so selecting a page's id shows that
      very page. */
  lemma RenderPageOfId(p: Page)
    ensures RenderPage(PageId(p)) == p
  {
  }

  /** An id outside the six shows the home page. */
  lemma UnknownIdShowsHome(id: string)
    requires !KnownId(id)
    ensures RenderPage(id) == HomePage
  {
    var p := RenderPage(id);
    assert p == HomePage || PageId(p) == id;
  }

  /** Exactly the six ids are known. */
  lemma KnownIds(id: string)
    ensures KnownId(id) <==> id in {"home", "pets", "register", "release", "adopt", "contact"}
  {
    if id in {"home", "pets", "register", "release", "adopt", "contact"} {
      assert PageId(RenderPage(id)) == id;
    }
  }
}
