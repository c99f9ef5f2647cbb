/**
 * The decision of the server's catch-all GET route, registered for every path,
 * which lets the client-side router handle a page reload. The functions model
 * the handler's body taken alone: in the running server its `/` and callback
 * branches are never reached, because the static files, the callback route and
 * the `/` route are registered before it and answer those paths first.
 */
module Routes {

  datatype Action = NoResponse | Redirect(location: string) | SendIndexHtml

  const CallbackPath: string := "/auth/google/callback"
  const CreatePath: string := "/create-mixtapes"
  const LoginUrl: string := "http://localhost:3000/login"
  const PlayerUrl: string := "http://localhost:3000/mixtape-player"

  /** The catch-all as written: a logged-in user at /create-mixtapes gets no response at all. */
  function CatchAllAsWritten(path: string, loggedIn: bool): (a: Action)
    ensures a == NoResponse <==> path == CallbackPath || (path == CreatePath && loggedIn)
    ensures a == Redirect(LoginUrl) <==> path == CreatePath && !loggedIn
    ensures a == Redirect(PlayerUrl) <==> path == "/"
    ensures a == SendIndexHtml <==> path != CallbackPath && path != CreatePath && path != "/"
  {
    if path != CallbackPath then
      if path == CreatePath then
        if !loggedIn then Redirect(LoginUrl) else NoResponse
      else if path == "/" then Redirect(PlayerUrl)
      else SendIndexHtml
    else NoResponse
  }

  /** Reloading /create-mixtapes while logged in leaves the request unanswered. */
  lemma LoggedInCreateHangs()
    ensures CatchAllAsWritten(CreatePath, true) == NoResponse
  {
  }

  /** The catch-all with the missing branch: a logged-in user at /create-mixtapes gets the page. */
  function CatchAll(path: string, loggedIn: bool): (a: Action)
    ensures a == NoResponse <==> path == CallbackPath
    ensures a == Redirect(LoginUrl) <==> path == CreatePath && !loggedIn
    ensures a == Redirect(PlayerUrl) <==> path == "/"
    ensures a == SendIndexHtml <==>
      path != CallbackPath && path != "/" && (path == CreatePath ==> loggedIn)
  {
    if path == CallbackPath then NoResponse
    else if path == CreatePath && !loggedIn then Redirect(LoginUrl)
    else if path == "/" then Redirect(PlayerUrl)
    else SendIndexHtml
  }

  /** The correction changes the answer for that one case and no other. */
  lemma CatchAllDiffersOnlyThere(path: string, loggedIn: bool)
    ensures CatchAll(path, loggedIn) != CatchAllAsWritten(path, loggedIn) <==> path == CreatePath && loggedIn
  {
  }
}
