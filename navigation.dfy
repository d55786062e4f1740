/**
 * The delegated click handler of the page-transition system: a click on an
 * anchor is either left to the browser or intercepted, in which case the page
 * plays its leaving animation and navigates to the very same href 600 ms later.
 */
module Navigation {
  import opened Common

  /** Delay between starting the leaving animation and the real navigation. */
  const TransitionDelay: nat := 600

  /** The anchor found by `closest('a')`: its `target` property and its `href` attribute. */
  datatype Anchor = Anchor(target: string, href: Option<string>)

  /**
   * What the handler does. `Transition` means: default navigation prevented,
   * the body marked as leaving, the overlay made active, and `destination`
   * assigned to `window.location.href` after `delay` ms.
   */
  datatype Outcome = Native | Transition(destination: string, delay: nat)

  /** The href beginnings the handler leaves to the browser. */
  const SkipPrefixes: seq<string> := ["#", "mailto:", "tel:", "http", "javascript"]

  /** Links the handler never intercepts, whatever they end with. */
  predicate Skipped(a: Anchor, href: string)
    ensures Skipped(a, href) <==>
      a.target == "_blank" || exists p, t :: p in SkipPrefixes && href == p + t
  {
    assert forall p :: p in SkipPrefixes <==>
      p == "#" || p == "mailto:" || p == "tel:" || p == "http" || p == "javascript";
    a.target == "_blank" || StartsWith(href, "#") || StartsWith(href, "mailto:")
    || StartsWith(href, "tel:") || StartsWith(href, "http") || StartsWith(href, "javascript")
  }

  /** The skip rules look only at the start of the href: whatever is appended, a skipped link stays skipped. */
  lemma SkipLooksAtStart(a: Anchor, href: string, x: string)
    ensures Skipped(a, href) ==> Skipped(a, href + x)
  {
    StartsWithExtended(href, "#");
    StartsWithExtended(href, "mailto:");
    StartsWithExtended(href, "tel:");
    StartsWithExtended(href, "http");
    StartsWithExtended(href, "javascript");
  }

  /**
   * Same-site document links: a `.html` path, whatever precedes the file
   * name, or the site root written as `/` or `./`.
   */
  predicate PageLink(href: string)
    ensures PageLink(href) <==> href == "/" || href == "./" || exists stem :: href == stem + ".html"
  {
    EndsWith(href, ".html") || href == "/" || href == "./"
  }

  /** The page rule looks only at the end: a `.html` href stays a page link behind any directory part. */
  lemma PageLinkLooksAtEnd(href: string, x: string)
    ensures EndsWith(href, ".html") ==> PageLink(x + href)
  {
    EndsWithExtended(href, ".html");
  }

  /** The click handler; `clicked` is `None` when the click was not inside an anchor. */
  function OnClick(clicked: Option<Anchor>): (o: Outcome)
    ensures o.Transition? <==>
      clicked.Some? && clicked.value.href.Some? && clicked.value.href.value != []
      && clicked.value.target != "_blank"
      && !Skipped(clicked.value, clicked.value.href.value) && PageLink(clicked.value.href.value)
    ensures o.Transition? ==> o.destination == clicked.value.href.value && o.delay == TransitionDelay
  {
    match clicked
    case None => Native
    case Some(a) =>
      match a.href
      case None => Native
      case Some(href) =>
        if href == [] then Native
        else if Skipped(a, href) then Native
        else if PageLink(href) then Transition(href, TransitionDelay)
        else Native
  }

  /**
   * Every intercepted link, spelled out character by character: it opens in
   * the same context, does not begin with `#`, `mailto:`, `tel:`, `http` or
   * `javascript`, and is a `.html` path or the site root.
   */
  lemma InterceptedLinks(a: Anchor)
    requires OnClick(Some(a)).Transition?
    ensures a.target != "_blank" && a.href.Some?
    ensures var h := a.href.value;
      |h| > 0 && h[0] != '#'
      && !(|h| >= 7 && h[..7] == "mailto:") && !(|h| >= 4 && h[..4] == "tel:")
      && !(|h| >= 4 && h[..4] == "http") && !(|h| >= 10 && h[..10] == "javascript")
      && ((|h| >= 5 && h[|h| - 5..] == ".html") || h == "/" || h == "./")
  {
  }

  /** A skip rule wins over the page rule: `mailto:a.html`, `#x.html`, `http://host/a.html` are all left alone. */
  lemma SkipRulesWin(target: string, href: string)
    requires target == "_blank" || StartsWith(href, "#") || StartsWith(href, "mailto:")
      || StartsWith(href, "tel:") || StartsWith(href, "http") || StartsWith(href, "javascript")
    ensures OnClick(Some(Anchor(target, Some(href)))) == Native
  {
  }

  /**
   * The `http` test is a plain prefix test, so a relative page whose name
   * begins with the letters `http` is not intercepted, while an otherwise
   * identical name is.
   */
  lemma RelativeHttpPrefixIsSkipped()
    ensures OnClick(Some(Anchor("", Some("https-guide.html")))) == Native
    ensures OnClick(Some(Anchor("", Some("guide.html")))) == Transition("guide.html", TransitionDelay)
  {
    assert StartsWith("https-guide.html", "http");
    var g := "guide.html";
    assert g[0] == 'g';
    assert !StartsWith(g, "#") && !StartsWith(g, "mailto:") && !StartsWith(g, "tel:");
    assert !StartsWith(g, "http") && !StartsWith(g, "javascript");
    assert g[5..] == ".html";
  }
}
