/**
 * `scrape_all_movies` (hw6.py:40-43) after the page has been fetched and parsed:
 * the input is the list of `<a>` elements found in the filmography section,
 * or `None` when the page has no such section.
 */
module Filmography {
  import opened Wrappers
  import opened Dicts

  const ImdbOrigin: string := "http://www.imdb.com"

  /** The link text the scraper treats as a placeholder rather than a title. */
  const PostProduction: string := "post-production"

  /** An `<a>` element: its text and its `href` attribute, when it has one. */
  datatype Link = Link(text: string, href: Option<string>)

  datatype ScrapeError =
    | NoFilmographySection      // `find` gave None, so `films.find_all` raises AttributeError
    | MissingHref(text: string) // a listed link has no href, so building its URL raises TypeError

  /** The comprehension keeps every link except the post-production placeholder. */
  predicate Listed(l: Link) {
    l.text != PostProduction
  }

  /** The site origin followed by the link's href (only used on links that have one). */
  function Url(l: Link): string {
    ImdbOrigin + match l.href case Some(h) => h case None => ""
  }

  /** The index of the first listed link without an href, at which the comprehension raises. */
  function FirstMissingHref(links: seq<Link>): (r: Option<nat>)
    ensures r.Some? ==> r.value < |links| && Listed(links[r.value]) && links[r.value].href.None?
    ensures r.Some? ==> forall j :: 0 <= j < r.value ==> !(Listed(links[j]) && links[j].href.None?)
    ensures r.None? ==> forall j :: 0 <= j < |links| ==> !(Listed(links[j]) && links[j].href.None?)
  {
    if links == [] then None
    else if Listed(links[0]) && links[0].href.None? then Some(0)
    else match FirstMissingHref(links[1..])
      case Some(k) => Some(k + 1)
      case None => None
  }

  /**
   * The dict comprehension of `scrape_all_movies`: each listed link's text
   * maps to the site origin followed by its href. It fails when the page has
   * no filmography section or when a listed link has no href.
   */
  function ScrapeAllMovies(films: Option<seq<Link>>): (r: Result<Dict<string, string>, ScrapeError>)
    ensures films.None? ==> r == Err(NoFilmographySection)
    ensures films.Some? ==>
              var links := films.value;
              && (r.Ok? <==> forall i :: 0 <= i < |links| && links[i].text != PostProduction ==> links[i].href.Some?)
              && (r.Err? ==> FirstMissingHref(links).Some? &&
                                         r.error == MissingHref(links[FirstMissingHref(links).value].text))
    ensures r.Ok? ==> Valid(r.value) && PostProduction !in r.value.entries
    ensures r.Ok? ==>
              var links := films.value;
              forall t :: t in r.value.entries <==> exists l :: l in links && l.text == t && t != PostProduction
    ensures r.Ok? ==>
              var links := films.value;
              forall i :: 0 <= i < |links| && links[i].text != PostProduction &&
                          (forall j :: i < j < |links| ==> links[j].text != links[i].text) ==>
                links[i].href.Some? && r.value.entries[links[i].text] == ImdbOrigin + links[i].href.value
  {
    match films
    case None => Err(NoFilmographySection)
    case Some(links) =>
      match FirstMissingHref(links)
      case Some(i) => Err(MissingHref(links[i].text))
      case None =>
        var key := (l: Link) => l.text;
        ComprehensionKeys(links, key, Url, Listed);
        forall i | 0 <= i < |links| && links[i].text != PostProduction &&
                   (forall j :: i < j < |links| ==> links[j].text != links[i].text)
          ensures Comprehension(links, key, Url, Listed).entries[links[i].text] == Url(links[i])
        {
          ComprehensionLastWins(links, key, Url, Listed, i);
        }
        Ok(Comprehension(links, key, Url, Listed))
  }
}
