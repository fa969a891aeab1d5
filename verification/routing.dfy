/** The edge middleware guarding `/kids` (app/middleware.ts), and how it
    composes with the kids page's own session check. */
module Routing {
  import opened Common
  import opened Kids
  import opened KidLists

  /** What the middleware returns: a redirect, an explicit `next()`, or
      (as `None`) nothing, which also lets the request through. */
  datatype Response = Redirect(path: string) | Next

  predicate IsPrefix(p: string, s: string) {
    |p| <= |s| && s[..|p|] == p
  }

  /** `middleware(request)`: only requests without a `session` cookie are
      touched. A bare `/kids` goes to `/parent`; a `/kids/…` page is let
      through so the page can serve public dashboards. */
  function Middleware(path: string, session: Option<string>): (r: Option<Response>)
    ensures r == Some(Redirect("/parent")) <==> path == "/kids" && session.None?
    ensures r == Some(Next) <==> IsPrefix("/kids/", path) && session.None?
    ensures r.None? <==> session.Some? || (path != "/kids" && !IsPrefix("/kids/", path))
  {
    if path == "/kids" || IsPrefix("/kids/", path) then
      if session.None? then
        if path == "/kids" then Some(Redirect("/parent"))
        else Some(Next)
      else None
    else None
  }

  /** A request for `/kids` end to end: the middleware's redirect if it
      gives one, otherwise the server-rendered page. */
  function ServeKids(session: Option<string>, verify: string -> Option<Claims>, coll: seq<KidDoc>): KidsPageResult {
    match Middleware("/kids", session)
    case Some(Redirect(p)) => RedirectTo(p)
    case _ => KidsPage(session, verify, coll)
  }

  /** The middleware's redirect never changes what `/kids` serves: the page
      redirects every request without a cookie to the same place. It only
      saves the page's work. */
  lemma MiddlewareAgreesWithPage(session: Option<string>, verify: string -> Option<Claims>, coll: seq<KidDoc>)
    ensures ServeKids(session, verify, coll) == KidsPage(session, verify, coll)
  {
  }

  /** `/kids` renders a list only for a cookie the verifier accepts, and
      then the list is that user's kids. */
  lemma KidsRenderedOnlyWithSession(session: Option<string>, verify: string -> Option<Claims>, coll: seq<KidDoc>)
    ensures var r := ServeKids(session, verify, coll);
            r.Render? ==> session.Some? && verify(session.value).Some?
  {
  }
}
