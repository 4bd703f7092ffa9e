/** The parts of a parsed index page the crawlers look at. The page is what
    `soup.find_all('div')` returns: every `div`, in document order. Each element keeps the
    answers of the lookups the crawlers make on it, and an attribute or child the page does
    not have is `None`, so that the lookup's exception can be modelled. */
module Dom {
  import opened Wrappers

  /** An `a` element; `href` is `None` when the attribute is absent. */
  datatype Anchor = Anchor(href: Option<string>)

  /** An `li` element with the anchors `li.find_all('a')` returns. */
  datatype Item = Item(anchors: seq<Anchor>)

  /** A `p` element: its class list (`None` without a class attribute) and the anchors
      `p.find_all('a')` returns. */
  datatype Para = Para(classes: Option<seq<string>>, anchors: seq<Anchor>)

  /** A `div`: its class list, the `li` items of `div.find('ul')` (`None` when the div has
      no `ul`), and the `p` elements `div.find_all('p')` returns. */
  datatype Div = Div(classes: Option<seq<string>>, list: Option<seq<Item>>, paras: seq<Para>)

  type Page = seq<Div>

  /** The exceptions the extraction code can raise on a page:
      `x['class']` without a class attribute (KeyError), `x['class'][0]` on an empty class
      list (IndexError), `.find_all` on the `None` that `div.find('ul')` returns without a
      `ul` (AttributeError), and `a['href']` without an href (KeyError). */
  datatype Error = MissingClass | EmptyClass | MissingList | MissingHref

  /** `x['class'][0]`. */
  function FirstClass(classes: Option<seq<string>>): (r: Result<string, Error>)
  {
    match classes
    case None => Err(MissingClass)
    case Some(cs) => if |cs| == 0 then Err(EmptyClass) else Ok(cs[0])
  }

  /** The element has a class attribute whose first class is `c`. */
  predicate FirstClassIs(classes: Option<seq<string>>, c: string)
  {
    classes.Some? && |classes.value| > 0 && classes.value[0] == c
  }

  /** `a['href']`. */
  function Href(a: Anchor): (r: Result<string, Error>)
  {
    match a.href
    case None => Err(MissingHref)
    case Some(h) => Ok(h)
  }
}
