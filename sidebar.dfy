/** The navigation sidebar: which of its fixed routes is highlighted for the
    current pathname. */
module Sidebar {

  /** A navigation entry; `exact` is false when the route does not set it. */
  datatype Route = Route(name: string, path: string, exact: bool)

  /** The sidebar's routes, in display order. */
  const Routes: seq<Route> := [
    Route("Home", "/", true),
    Route("Stocks", "/stock", false),
    Route("ETFs", "/etf", false),
    Route("Calculator", "/calculator", false)
  ]

  /** `isActive(path, exact)` for the current `pathname`. */
  predicate IsActive(pathname: string, path: string, exact: bool)
  {
    if exact then pathname == path
    else pathname == path || path + "/" <= pathname
  }

  /** Is the route highlighted? (`isActive(route.path, route.exact)`) */
  predicate RouteActive(pathname: string, route: Route)
  {
    IsActive(pathname, route.path, route.exact)
  }

  /** An exact route is active for its own path and nothing else. */
  lemma ExactActiveIff(pathname: string, path: string)
    ensures IsActive(pathname, path, true) <==> pathname == path
  {
  }

  /** A non-exact route is active for its path and for every path below it
      (the path followed by "/" and anything). */
  lemma PrefixActiveIff(pathname: string, path: string)
    ensures IsActive(pathname, path, false)
        <==> pathname == path || exists rest :: pathname == path + "/" + rest
  {
    if path + "/" <= pathname {
      var rest := pathname[|path| + 1..];
      assert pathname == path + "/" + rest;
    }
  }

  /** Being active always means the route's path starts the pathname. */
  lemma ActiveImpliesPrefix(pathname: string, path: string, exact: bool)
    requires IsActive(pathname, path, exact)
    ensures path <= pathname
  {
    if pathname != path {
      assert pathname[..|path|] == (path + "/")[..|path|];
    }
  }

  /** A path that merely shares the route's text is not below it. */
  lemma StocksExamples()
    ensures RouteActive("/stock", Routes[1])
    ensures RouteActive("/stock/abc", Routes[1])
    ensures !RouteActive("/stocks", Routes[1])
    ensures !RouteActive("/etf", Routes[1])
  {
    assert "/stock/" <= "/stock/abc";
    assert "/stocks"[6] != "/stock/"[6];
  }

  /** Home is exact, so it is highlighted on "/" only; every other route is not exact. */
  lemma HomeOnlyOnRoot(pathname: string)
    ensures RouteActive(pathname, Routes[0]) <==> pathname == "/"
    ensures forall i :: 1 <= i < |Routes| ==> !Routes[i].exact
  {
  }

  /** The non-root routes differ in their second character. */
  lemma SecondCharSeparates(i: nat, j: nat)
    requires 1 <= i < |Routes| && 1 <= j < |Routes|
    requires Routes[i].path[1] == Routes[j].path[1]
    ensures i == j
  {
  }

  /** For any pathname, at most one route of the sidebar is highlighted. */
  lemma AtMostOneActive(pathname: string, i: nat, j: nat)
    requires i < |Routes| && j < |Routes|
    requires RouteActive(pathname, Routes[i]) && RouteActive(pathname, Routes[j])
    ensures i == j
  {
    ActiveImpliesPrefix(pathname, Routes[i].path, Routes[i].exact);
    ActiveImpliesPrefix(pathname, Routes[j].path, Routes[j].exact);
    if i != 0 && j != 0 {
      assert Routes[i].path[1] == pathname[1] == Routes[j].path[1];
      SecondCharSeparates(i, j);
    }
  }
}
