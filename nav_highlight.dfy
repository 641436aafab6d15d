/**
 * Highlighting the sidebar link of the current page: the page name is taken
 * from the URL path and every sidebar link is marked active or not.
 */
module NavHighlight {
  import opened Wrappers
  import opened JsBuiltins

  /**
   * `path.substring(path.lastIndexOf('/') + 1)`: the part of the path after its
   * last `/`, or the whole path when it has none.
   */
  function PageName(path: string): (r: string)
    ensures |r| <= |path| && '/' !in r
  {
    var last := LastIndexOf(path, '/');
    var name := path[last + 1..];
    SuffixWithoutSlash(path, last, name);
    assert |path| - |name| == last + 1;
    name
  }

  /**
   * The page name is a suffix of the path, preceded by a `/` when it is not the
   * whole path; with `'/' !in PageName(path)`, it is the suffix after the last `/`.
   */
  lemma PageNameIsSuffix(path: string)
    ensures PageName(path) == path[|path| - |PageName(path)|..]
    ensures |PageName(path)| < |path| ==> path[|path| - |PageName(path)| - 1] == '/'
  {
    var last := LastIndexOf(path, '/');
    var r := PageName(path);
    assert r == path[last + 1..];
    assert |path| - |r| == last + 1;
  }

  /** Nothing after the last `/` is a `/`. */
  lemma SuffixWithoutSlash(path: string, last: int, r: string)
    requires last == LastIndexOf(path, '/') && r == path[last + 1..]
    ensures '/' !in r
  {
    forall i | 0 <= i < |r|
      ensures r[i] != '/'
    {
      assert r[i] == path[last + 1 + i];
    }
  }

  /** `currentPage || 'home'`: the page name, with the empty name (a path ending in `/`) read as `home`. */
  function ActivePage(path: string): (r: string)
    ensures r != []
    ensures r == "home" || r == PageName(path)
    ensures PageName(path) != [] ==> r == PageName(path)
  {
    var name := PageName(path);
    if name == [] then "home" else name
  }

  /**
   * The condition of the link loop: `#home` on the home page, an exact match, or
   * a substring match. Both special cases are substring matches already, so a
   * link is active exactly when its `href` includes the page name.
   */
  predicate IsActive(activePage: string, href: string): (r: bool)
    ensures r <==> Includes(href, activePage)
  {
    SpecialCasesInclude(activePage, href);
    (activePage == "home" && href == "#home") || href == activePage || Includes(href, activePage)
  }

  /** `#home` includes `home`, and every `href` includes itself. */
  lemma SpecialCasesInclude(activePage: string, href: string)
    ensures activePage == "home" && href == "#home" ==> Includes(href, activePage)
    ensures href == activePage ==> Includes(href, activePage)
  {
    if activePage == "home" && href == "#home" {
      assert Includes(href[1..], activePage);
    }
  }

  /** Position of the first link without an `href`, where the loop throws, or the number of links. */
  function Stop(hrefs: seq<Option<string>>): (r: nat)
    ensures r <= |hrefs|
    ensures forall k :: 0 <= k < r ==> hrefs[k].Some?
    ensures r < |hrefs| <==> None in hrefs
    ensures r < |hrefs| ==> hrefs[r].None?
  {
    var hit := FirstIndexOf(hrefs, None);
    if hit.None? then |hrefs| else hit.value
  }

  /**
   * The active flags after the loop: the links before `Stop` are set by
   * `IsActive`; from a link without `href` on, `linkHref.includes` throws and
   * the remaining links keep their flags.
   */
  function Highlighted(flags: seq<bool>, hrefs: seq<Option<string>>, activePage: string): (r: seq<bool>)
    requires |flags| == |hrefs|
    ensures |r| == |flags|
  {
    var stop := Stop(hrefs);
    seq(|flags|, j requires 0 <= j < |flags| => if j < stop then IsActive(activePage, hrefs[j].value) else flags[j])
  }

  /**
   * When every link has an `href`, a link ends up active exactly when its href
   * includes the page name; no earlier flag matters.
   */
  lemma HighlightedIff(flags: seq<bool>, hrefs: seq<Option<string>>, activePage: string)
    requires |flags| == |hrefs| && None !in hrefs
    ensures forall j :: 0 <= j < |hrefs| ==>
              hrefs[j].Some? && (Highlighted(flags, hrefs, activePage)[j] <==> Includes(hrefs[j].value, activePage))
  {
    forall j | 0 <= j < |hrefs|
      ensures hrefs[j].Some? && (Highlighted(flags, hrefs, activePage)[j] <==> Includes(hrefs[j].value, activePage))
    {
      assert hrefs[j] in hrefs;
    }
  }

  /** A link without `href` stops the loop: it and every later link keep their flags. */
  lemma HighlightedStops(flags: seq<bool>, hrefs: seq<Option<string>>, activePage: string, j: int)
    requires |flags| == |hrefs| && 0 <= j < |hrefs| && None in hrefs[..j + 1]
    ensures Highlighted(flags, hrefs, activePage)[j] == flags[j]
  {
    var k :| 0 <= k <= j && hrefs[..j + 1][k] == None;
    assert hrefs[k] == None;
  }

  /** Highlighting is idempotent: running it again on its own result changes nothing. */
  lemma HighlightedIdempotent(flags: seq<bool>, hrefs: seq<Option<string>>, activePage: string)
    requires |flags| == |hrefs|
    ensures Highlighted(Highlighted(flags, hrefs, activePage), hrefs, activePage) == Highlighted(flags, hrefs, activePage)
  {
  }

  /** Flags set by `IsActive` up to the stopping link and unchanged after it are `Highlighted`'s. */
  lemma HighlightedAt(flags: seq<bool>, hrefs: seq<Option<string>>, activePage: string, cur: seq<bool>, i: nat)
    requires |flags| == |hrefs| == |cur| && i <= |hrefs|
    requires i < |hrefs| ==> hrefs[i].None?
    requires forall k :: 0 <= k < i ==> hrefs[k].Some? && cur[k] == IsActive(activePage, hrefs[k].value)
    requires forall k :: i <= k < |cur| ==> cur[k] == flags[k]
    ensures cur == Highlighted(flags, hrefs, activePage)
    ensures i == |hrefs| <==> None !in hrefs
  {
    assert Stop(hrefs) == i;
  }

  /** The sidebar links: each one's `href` attribute (`None` when absent) and whether it carries `active`. */
  class NavMenu {
    const hrefs: seq<Option<string>>
    const active: array<bool>

    constructor (hrefs: seq<Option<string>>, initial: seq<bool>)
      requires |initial| == |hrefs|
      ensures this.hrefs == hrefs && fresh(active) && active[..] == initial
    {
      this.hrefs := hrefs;
      active := new bool[|initial|](i requires 0 <= i < |initial| => initial[i]);
    }

    /**
     * `highlightCurrentNavItem` for the URL path `path`. `ok` is false when
     * some link has no `href`, where the source's loop throws.
     */
    method Highlight(path: string) returns (ok: bool)
      requires active.Length == |hrefs|
      modifies active
      ensures ok <==> None !in hrefs
      ensures active[..] == Highlighted(old(active[..]), hrefs, ActivePage(path))
    {
      var page := ActivePage(path);
      var i := 0;
      while i < active.Length
        invariant 0 <= i <= active.Length
        invariant forall k :: 0 <= k < i ==> hrefs[k].Some? && active[k] == IsActive(page, hrefs[k].value)
        invariant forall k :: i <= k < active.Length ==> active[k] == old(active[k])
      {
        if hrefs[i].None? {
          HighlightedAt(old(active[..]), hrefs, page, active[..], i);
          return false;
        }
        active[i] := IsActive(page, hrefs[i].value);
        i := i + 1;
      }
      HighlightedAt(old(active[..]), hrefs, page, active[..], i);
      return true;
    }
  }
}
