/** `FavouritesQuickAccessWidgetViewModel`: the connection status of the favourites widget
    and the entries it shows.

    Every assignment to `status` runs its observer, which sends `reloadWidget` to the
    command listener when one is set. `onWidgetReady` resets the status and connects:
    copying the databases of the main app is requested, and its completion, a separate
    event, sets the final status. */
module QuickAccessWidget {
  import opened Common
  import opened Paths
  import opened Media

  /** `WidgetStatus`. */
  datatype WidgetStatus = NotConnected | Connecting | Connected | Error | NoSession

  /** What the view model sends out. */
  datatype Effect =
    | ReloadWidget      // `invokeCommand?(.reloadWidget)`
    | CopyFromMainApp   // `copyDataBasesUseCase.copyFromMainApp`, completing later

  /** The view model's state: its status and whether `invokeCommand` is set. */
  datatype Widget = Widget(status: WidgetStatus, listening: bool)

  /** A state and the effects that led to it. */
  datatype Step = Step(widget: Widget, effects: seq<Effect>)

  /** What can happen to the view model. */
  datatype Event =
    | WidgetReady                 // `dispatch(.onWidgetReady)`
    | CopyFinished(success: bool) // the completion handler of the copy

  /** A freshly built view model. */
  function Initial(listening: bool): (w: Widget)
    ensures w.status == NotConnected
  {
    Widget(NotConnected, listening)
  }

  /** The reloads sent to a listener, if there is one: one per status assignment. */
  function Reloads(w: Widget, assignments: nat): (r: seq<Effect>)
    ensures |r| == (if w.listening then assignments else 0)
    ensures forall i :: 0 <= i < |r| ==> r[i] == ReloadWidget
  {
    if w.listening then seq(assignments, _ => ReloadWidget) else []
  }

  /** How many effects of a trace are `e`. */
  function Count(effects: seq<Effect>, e: Effect): (n: nat)
    ensures n <= |effects|
  {
    if |effects| == 0 then 0
    else Count(effects[..|effects| - 1], e) + (if effects[|effects| - 1] == e then 1 else 0)
  }

  /** The `status` setter with its `didSet` observer: the status is replaced even by an
      equal one, and the listener is told to reload. */
  function Assign(w: Widget, s: WidgetStatus): (r: Step)
    ensures r.widget == w.(status := s)
    ensures r.effects == Reloads(w, 1)
  {
    Step(w.(status := s), if w.listening then [ReloadWidget] else [])
  }

  /** `updateStatus`: assigns only a status different from the current one. */
  function UpdateStatus(w: Widget, s: WidgetStatus): (r: Step)
    ensures r.widget == w.(status := s)
    ensures r.effects == Reloads(w, if w.status == s then 0 else 1)
  {
    if w.status != s then Assign(w, s) else Step(w, [])
  }

  /** `connectWidgetExtension`: nothing while already connecting; otherwise the status
      becomes `connecting` and the copy is requested. */
  function Connect(w: Widget): (r: Step)
    ensures w.status == Connecting ==> r == Step(w, [])
    ensures w.status != Connecting ==>
      r == Step(w.(status := Connecting), Reloads(w, 1) + [CopyFromMainApp])
  {
    if w.status == Connecting then Step(w, [])
    else
      var u := UpdateStatus(w, Connecting);
      Step(u.widget, u.effects + [CopyFromMainApp])
  }

  /** The copy's completion handler: `connected` on success, `error` on failure. */
  function Finish(w: Widget, success: bool): (r: Step)
    ensures r.widget.status == (if success then Connected else Error)
    ensures r.widget.listening == w.listening
  {
    UpdateStatus(w, if success then Connected else Error)
  }

  /** `dispatch(.onWidgetReady)`: reset to `notConnected`, then connect. */
  function OnWidgetReady(w: Widget): (r: Step)
    ensures r.widget == w.(status := Connecting)
    ensures r.effects == Reloads(w, 2) + [CopyFromMainApp]
  {
    var reset := Assign(w, NotConnected);
    var connect := Connect(reset.widget);
    Step(connect.widget, reset.effects + connect.effects)
  }

  /** One event. */
  function Apply(w: Widget, e: Event): (r: Step)
    ensures r.widget.listening == w.listening
  {
    match e
    case WidgetReady => OnWidgetReady(w)
    case CopyFinished(success) => Finish(w, success)
  }

  /** Events in order, the effects of each appended to those before. */
  function Run(w: Widget, events: seq<Event>): Step
    decreases |events|
  {
    if |events| == 0 then Step(w, [])
    else
      var before := Run(w, events[..|events| - 1]);
      var last := Apply(before.widget, events[|events| - 1]);
      Step(last.widget, before.effects + last.effects)
  }

  /** How many of the events are `onWidgetReady`. */
  function ReadyCount(events: seq<Event>): (n: nat)
    ensures n <= |events|
  {
    if |events| == 0 then 0
    else ReadyCount(events[..|events| - 1]) + (if events[|events| - 1] == WidgetReady then 1 else 0)
  }

  // ---------------------------------------------------------------------------
  // Properties

  /** Assigning the current status again through `updateStatus` sends nothing. */
  lemma UpdateSameIsSilent(w: Widget)
    ensures UpdateStatus(w, w.status) == Step(w, [])
  {
  }

  /** `updateStatus` is idempotent: a second call with the same status changes nothing and
      sends nothing. */
  lemma UpdateTwice(w: Widget, s: WidgetStatus)
    ensures var once := UpdateStatus(w, s);
      UpdateStatus(once.widget, s) == Step(once.widget, [])
  {
  }

  /** After `onWidgetReady` the guard of `connectWidgetExtension` is never taken: the reset
      to `notConnected` comes first, so the copy is always requested. */
  lemma ReadyAlwaysRequestsCopy(w: Widget)
    ensures Count(OnWidgetReady(w).effects, CopyFromMainApp) == 1
    ensures Count(OnWidgetReady(w).effects, ReloadWidget) == (if w.listening then 2 else 0)
  {
    CountReloadsThenCopy(w, 2);
  }

  /** Ready, then the copy completes: the widget ends `connected` or `error`, never
      `connecting`, and a listener has been told to reload three times. */
  lemma ReadyThenCopy(w: Widget, success: bool)
    ensures var r := Run(w, [WidgetReady, CopyFinished(success)]);
      && r.widget.status == (if success then Connected else Error)
      && Count(r.effects, ReloadWidget) == (if w.listening then 3 else 0)
      && Count(r.effects, CopyFromMainApp) == 1
  {
    var ready := OnWidgetReady(w);
    var done := Finish(ready.widget, success);
    RunTwo(w, WidgetReady, CopyFinished(success));
    ReadyAlwaysRequestsCopy(w);
    FinishFromConnecting(ready.widget, success);
    CountAppend(ready.effects, done.effects, ReloadWidget);
    CountAppend(ready.effects, done.effects, CopyFromMainApp);
  }

  /** Two events in a row. */
  lemma RunTwo(w: Widget, a: Event, b: Event)
    ensures Run(w, [a, b]) == Step(Apply(Apply(w, a).widget, b).widget, Apply(w, a).effects + Apply(Apply(w, a).widget, b).effects)
  {
    var events := [a, b];
    assert events[..1] == [a];
    assert events[..1][..0] == [];
    assert Run(w, events[..1]) == Step(Apply(w, a).widget, [] + Apply(w, a).effects);
    assert [] + Apply(w, a).effects == Apply(w, a).effects;
  }

  /** Completing the copy while connecting sends one reload and no copy. */
  lemma FinishFromConnecting(w: Widget, success: bool)
    requires w.status == Connecting
    ensures Count(Finish(w, success).effects, ReloadWidget) == (if w.listening then 1 else 0)
    ensures Count(Finish(w, success).effects, CopyFromMainApp) == 0
  {
    CountReloads(w, 1);
  }

  /** Over any run, one copy is requested per `onWidgetReady`, and the status never
      becomes `noSession`: only `fetchFavouriteItems` reports that, without assigning it. */
  lemma {:induction false} RunInvariant(w: Widget, events: seq<Event>)
    requires w.status != NoSession
    ensures Count(Run(w, events).effects, CopyFromMainApp) == ReadyCount(events)
    ensures Run(w, events).widget.status != NoSession
    ensures Run(w, events).widget.listening == w.listening
    decreases |events|
  {
    if |events| > 0 {
      var before := Run(w, events[..|events| - 1]);
      RunInvariant(w, events[..|events| - 1]);
      var e := events[|events| - 1];
      var last := Apply(before.widget, e);
      CountAppend(before.effects, last.effects, CopyFromMainApp);
      ApplyCopies(before.widget, e);
    }
  }

  /** One event requests a copy exactly when it is `onWidgetReady`, and never sets
      `noSession`. */
  lemma ApplyCopies(w: Widget, e: Event)
    ensures Count(Apply(w, e).effects, CopyFromMainApp) == (if e == WidgetReady then 1 else 0)
    ensures Apply(w, e).widget.status != NoSession
  {
    match e
    case WidgetReady =>
      CountReloadsThenCopy(w, 2);
    case CopyFinished(success) =>
      CountReloads(w, if w.status == (if success then Connected else Error) then 0 else 1);
  }

  lemma {:induction false} CountAppend(a: seq<Effect>, b: seq<Effect>, e: Effect)
    ensures Count(a + b, e) == Count(a, e) + Count(b, e)
    decreases |b|
  {
    if |b| > 0 {
      assert (a + b)[..|a + b| - 1] == a + b[..|b| - 1];
      CountAppend(a, b[..|b| - 1], e);
    } else {
      assert a + b == a;
    }
  }

  lemma {:induction false} CountReloads(w: Widget, n: nat)
    ensures Count(Reloads(w, n), ReloadWidget) == |Reloads(w, n)|
    ensures Count(Reloads(w, n), CopyFromMainApp) == 0
    decreases n
  {
    if w.listening && n > 0 {
      assert Reloads(w, n)[..n - 1] == Reloads(w, n - 1);
      CountReloads(w, n - 1);
    }
  }

  lemma CountReloadsThenCopy(w: Widget, n: nat)
    ensures Count(Reloads(w, n) + [CopyFromMainApp], CopyFromMainApp) == 1
    ensures Count(Reloads(w, n) + [CopyFromMainApp], ReloadWidget) == |Reloads(w, n)|
  {
    CountReloads(w, n);
    CountAppend(Reloads(w, n), [CopyFromMainApp], CopyFromMainApp);
    CountAppend(Reloads(w, n), [CopyFromMainApp], ReloadWidget);
    assert [CopyFromMainApp][..0] == [];
  }

  // ---------------------------------------------------------------------------
  // fetchFavouriteItems

  /** `FavouriteItemEntity`, as far as the widget uses it. */
  datatype FavouriteItem = FavouriteItem(name: string, base64Handle: string)

  /** `QuickAccessItemModel`: the thumbnail is the name of an image asset. */
  datatype QuickAccessItem = QuickAccessItem(thumbnail: string, name: string, url: Option<string>)

  /** `imageForPatExtension`: `folder` for no extension, otherwise the asset the file type
      table gives, `generic` when it has none. The extension is looked up as it is. */
  function ImageForPathExtension(types: map<string, string>, ext: string): (r: string)
    ensures ext == "" ==> r == "folder"
    ensures ext != "" ==> r == (if ext in types then types[ext] else "generic")
  {
    if ext != "" then (if ext in types then types[ext] else "generic") else "folder"
  }

  /** `URL.appendingPathComponent`: a `/` is put between unless the base ends with one. */
  function AppendingPathComponent(base: string, component: string): (r: string)
    ensures |base| <= |r| && r[..|base|] == base
    ensures |r| > |component| && r[|r| - |component| - 1] == '/' && r[|r| - |component|..] == component
  {
    if |base| > 0 && base[|base| - 1] == '/' then base + component else base + "/" + component
  }

  /** One entry of the widget for a favourite. `link` is `URL(string:)` of the favourites
      section link, `None` when that string is not a URL. */
  function Entry(types: map<string, string>, cwd: string, link: Option<string>, f: FavouriteItem): (q: QuickAccessItem)
    ensures q.name == f.name
    ensures q.url.Some? <==> link.Some?
    ensures |f.name| > 0 && Lacks(f.name, '/') ==>
      q.thumbnail == ImageForPathExtension(types, PathExtension(f.name))
  {
    var url := match link
      case None => None
      case Some(base) => Some(AppendingPathComponent(base, f.base64Handle));
    var ext := UrlPathExtension(FileUrlWithPath(cwd, f.name));
    if |f.name| > 0 && Lacks(f.name, '/') then
      UrlOfName(cwd, f.name);
      QuickAccessItem(ImageForPathExtension(types, ext), f.name, url)
    else QuickAccessItem(ImageForPathExtension(types, ext), f.name, url)
  }

  /** `fetchFavouriteItems`: with no session, no entries and `noSession`; with one, an
      entry per favourite the use case returned, in its order, and `connected`. `fetched`
      is what `fetchFavouriteItems(upTo:)` of the favourites use case returns. */
  function FetchFavouriteItems(sessionId: Option<string>, fetched: seq<FavouriteItem>,
                               types: map<string, string>, cwd: string, link: Option<string>)
    : (r: (seq<QuickAccessItem>, WidgetStatus))
    ensures sessionId.None? ==> r == ([], NoSession)
    ensures sessionId.Some? ==> r.1 == Connected && |r.0| == |fetched|
    ensures sessionId.Some? ==> forall i :: 0 <= i < |fetched| ==> r.0[i] == Entry(types, cwd, link, fetched[i])
  {
    if sessionId.Some? then (seq(|fetched|, i requires 0 <= i < |fetched| => Entry(types, cwd, link, fetched[i])), Connected)
    else ([], NoSession)
  }
}
