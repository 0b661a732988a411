/** The per-tool page: the manifest lookup, the redirect for an unknown id,
    the mount effect that records the visit in the recents store, and the
    error boundary around the lazily loaded tool. */
module ToolPage {
  import opened Wrappers
  import opened ToolTypes
  import HomePage
  import JsonList
  import Storage

  datatype Outcome = Redirect(to: string) | Show(manifest: ToolManifest)

  /** The manifest for the route parameter, which may be absent. */
  function Lookup(tools: seq<ToolManifest>, toolId: Option<string>): (r: Option<ToolManifest>)
    ensures r.Some? <==> toolId.Some? && HasId(tools, toolId.value)
    ensures r.Some? ==> r.value in tools && r.value.id == toolId.value
  {
    if toolId.None? then None else FindById(tools, toolId.value)
  }

  /** What the page renders: a redirect to the catalogue root for an unknown
      id, the tool otherwise. */
  function Route(tools: seq<ToolManifest>, toolId: Option<string>): (o: Outcome)
    ensures o.Redirect? <==> toolId.None? || !HasId(tools, toolId.value)
    ensures o.Redirect? ==> o.to == "/"
    ensures o.Show? ==> o.manifest in tools && o.manifest.id == toolId.value
  {
    match Lookup(tools, toolId)
    case None => Redirect("/")
    case Some(m) => Show(m)
  }

  /** One mounted tool page. `effectRanFor` is the dependency the mount
      effect last ran with (`None` before the first render): the effect
      runs again only when the looked-up manifest changes. */
  class ToolPageInstance {
    const tools: seq<ToolManifest>
    const store: Storage.LocalStorage
    var effectRanFor: Option<Option<ToolManifest>>

    constructor (tools: seq<ToolManifest>, store: Storage.LocalStorage)
      ensures this.tools == tools && this.store == store
      ensures effectRanFor.None?
    {
      this.tools := tools;
      this.store := store;
      effectRanFor := None;
    }

    /** Renders for a route parameter and runs the effect if its dependency
        changed. A known id is recorded once per manifest change; an unknown
        id is redirected and never recorded. */
    method Render(toolId: Option<string>) returns (o: Outcome)
      modifies this, store
      ensures o == Route(tools, toolId)
      ensures effectRanFor == Some(Lookup(tools, toolId))
      ensures o.Redirect? ==> store.items == old(store.items)
      ensures o.Show? && old(effectRanFor) == Some(Some(o.manifest)) ==>
                store.items == old(store.items)
      ensures o.Show? && old(effectRanFor) != Some(Some(o.manifest)) ==>
                store.items == old(store.items)[HomePage.RecentKey :=
                  JsonList.Serialize(HomePage.WithRecent(HomePage.GetRecent(old(store.items)), o.manifest.id))]
      ensures o.Show? && old(effectRanFor) != Some(Some(o.manifest)) ==>
                HomePage.GetRecent(store.items)
                  == HomePage.WithRecent(HomePage.GetRecent(old(store.items)), o.manifest.id)
    {
      var manifest := Lookup(tools, toolId);
      if effectRanFor != Some(manifest) {
        if manifest.Some? {
          HomePage.AddRecent(store, manifest.value.id);
        }
        effectRanFor := Some(manifest);
      }
      if manifest.None? {
        return Redirect("/");
      }
      return Show(manifest.value);
    }
  }

  /** A rejected module load: the thrown value and its `message`, if any. */
  datatype LoadError = LoadError(message: Option<string>)

  datatype BoundaryView = Children | Failed(message: string)

  /** `error?.message ?? 'Unknown error'`. */
  function FailureMessage(error: Option<LoadError>): (m: string)
    ensures error.Some? && error.value.message.Some? ==> m == error.value.message.value
    ensures error.None? || error.value.message.None? ==> m == "Unknown error"
  {
    match error
    case Some(LoadError(Some(msg))) => msg
    case _ => "Unknown error"
  }

  /** The error boundary around the tool: once an error is captured it
      shows the failure view for good. */
  class ToolErrorBoundary {
    var hasError: bool
    var error: Option<LoadError>

    ghost predicate Valid()
      reads this
    {
      hasError <==> error.Some?
    }

    constructor ()
      ensures Valid() && !hasError && error.None?
    {
      hasError := false;
      error := None;
    }

    /** `getDerivedStateFromError`: there is no way back to `hasError = false`. */
    method Capture(e: LoadError)
      requires Valid()
      modifies this
      ensures Valid() && hasError && error == Some(e)
    {
      hasError := true;
      error := Some(e);
    }

    function View(): (v: BoundaryView)
      reads this
      ensures v.Children? <==> !hasError
      ensures v.Failed? ==> v.message == FailureMessage(error)
    {
      if hasError then Failed(FailureMessage(error)) else Children
    }
  }
}
