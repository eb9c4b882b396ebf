/** `TextEditorViewModel`, as its unit tests pin it down: for each mode and action, the
    commands sent to the view, in order, and the calls made to the router and the upload
    use case, counted.

    The use cases and the router are oracles gathered in `Env`. A combination of mode,
    action and environment that no test exercises gives `None`. */
module TextEditor {
  import opened Common

  type Handle = nat

  datatype Mode = View | Create | Edit | Load

  /** `TextFile`. */
  datatype TextFile = TextFile(fileName: string, content: string, size: nat)

  /** `TextEditorModel`: the file, the mode, and the node's access level, which only view
      mode shows. */
  datatype EditorModel = EditorModel(file: TextFile, mode: Mode, accessLevel: Option<int>)

  /** The navigation bar buttons. */
  datatype NavbarItem = CloseItem | MoreItem | CancelItem | SaveItem

  /** `TextEditorNavbarItemsModel`. */
  datatype Navbar = Navbar(left: NavbarItem, right: Option<NavbarItem>, mode: Mode)

  datatype ErrorMessage = DownloadFailed | UploadFailed | UneditableLargeFile

  /** `TextEditorViewModel.Command`. */
  datatype Command =
    | SetupLoadViews
    | ConfigView(model: EditorModel, shallUpdateContent: bool, isInRubbishBin: bool, isBackupNode: bool)
    | SetupNavbarItems(navbar: Navbar)
    | UpdateProgressView(transferredBytes: nat, totalBytes: nat)
    | ShowError(message: ErrorMessage)
    | StartLoading
    | StopLoading
    | ShowDuplicateNameAlert(fileName: string)
    | ShowRenameAlert(fileName: string)
    | ShowDiscardChangeAlert

  /** Calls to the router and to the upload use case. */
  datatype Call =
    | DismissTextEditor
    | DismissBrowser
    | ChooseParentNode
    | ShowActions
    | ImportNode
    | ExportFile
    | ShowDownloadTransfer
    | UploadAs(newName: string)

  /** `TextEditorAction`. */
  datatype Action =
    | SetUpView
    | SaveText(content: string)
    | RenameFile
    | RenameFileTo(newInputName: string)
    | DismissTextEditorVC
    | EditFile
    | EditAfterOpen
    | ShowActionsAction
    | CancelText(content: string)
    | DownloadToOffline
    | ImportNodeAction
    | ExportFileAction

  /** How the temporary download of load mode ends. */
  datatype Download =
    | DownloadFailure
    | Downloaded(readable: bool)

  /** What the use cases and the router answer. */
  datatype Env = Env(
    accessLevel: Option<int>,       // the node use case's access level for the node
    inRubbishBin: bool,
    isBackupNode: bool,
    transferredBytes: nat,          // progress reported by the download
    totalBytes: nat,
    download: Download,
    uploadSucceeds: bool,
    duplicateName: bool,            // the parent already holds a file with this name
    chosenParent: Handle,           // the folder the user picks in `chooseParentNode`
    maxEditableFileSize: nat)       // `TextFile.maxEditableFileSize`

  /** The view model's state. */
  datatype Editor = Editor(mode: Mode, file: TextFile, parent: Option<Handle>, node: Option<Handle>)

  /** What one action does. */
  datatype Outcome = Outcome(editor: Editor, commands: seq<Command>, calls: multiset<Call>)

  /** The navigation bar of each mode. */
  function NavbarFor(mode: Mode): (n: Navbar)
    ensures n.mode == mode
    ensures n.left == (if mode == View || mode == Load then CloseItem else CancelItem)
    ensures n.right == (match mode
                        case View => Some(MoreItem)
                        case Load => None
                        case _ => Some(SaveItem))
  {
    match mode
    case View => Navbar(CloseItem, Some(MoreItem), View)
    case Create => Navbar(CancelItem, Some(SaveItem), Create)
    case Edit => Navbar(CancelItem, Some(SaveItem), Edit)
    case Load => Navbar(CloseItem, None, Load)
  }

  /** Configuring the view for `mode`, then its navigation bar. */
  function Configure(e: Editor, mode: Mode, shallUpdateContent: bool, env: Env): (r: seq<Command>)
    ensures |r| == 2 && r[0].ConfigView? && r[0].model.mode == mode && r[1] == SetupNavbarItems(NavbarFor(mode))
    ensures r[0].model.file == e.file && r[0].shallUpdateContent == shallUpdateContent
    ensures r[0].model.accessLevel == (if mode == View then env.accessLevel else None)
  {
    var access := if mode == View then env.accessLevel else None;
    [ ConfigView(EditorModel(e.file, mode, access), shallUpdateContent, env.inRubbishBin, env.isBackupNode),
      SetupNavbarItems(NavbarFor(mode)) ]
  }

  /** A file can be edited when it is smaller than the limit. */
  predicate Editable(file: TextFile, env: Env)
  {
    file.size < env.maxEditableFileSize
  }

  /** `setUpView`. In load mode, the load views, the progress of the download, and then
      the file in view mode, or an error when the download fails. */
  function SetUp(e: Editor, env: Env): Option<Outcome>
  {
    match e.mode
    case Load =>
      if e.node.None? then None
      else
        var loading := [SetupLoadViews] + Configure(e, Load, false, env)
          + [UpdateProgressView(env.transferredBytes, env.totalBytes)];
        (match env.download
         case DownloadFailure => Some(Outcome(e, loading + [ShowError(DownloadFailed)], multiset{}))
         case Downloaded(readable) =>
           if readable then Some(Outcome(e.(mode := View), loading + Configure(e, View, true, env), multiset{}))
           else Some(Outcome(e, loading, multiset{})))
    case _ => Some(Outcome(e, Configure(e, e.mode, true, env), multiset{}))
  }

  /** `saveText` in create mode, once the parent is known: a duplicate name raises the
      alert; otherwise the file is uploaded and both the editor and the browser are
      dismissed, with an error shown when the upload fails. */
  function CreateInParent(e: Editor, env: Env, asked: multiset<Call>): Outcome
  {
    if env.duplicateName then Outcome(e, [ShowDuplicateNameAlert(e.file.fileName)], asked)
    else
      var calls := asked + multiset{DismissTextEditor, DismissBrowser};
      Outcome(e, if env.uploadSucceeds then [] else [ShowError(UploadFailed)], calls)
  }

  /** `saveText(content:)`. */
  function Save(e: Editor, env: Env): Option<Outcome>
  {
    match e.mode
    case Edit =>
      if env.uploadSucceeds then
        Some(Outcome(e.(mode := View), [StartLoading, StopLoading] + Configure(e, View, false, env), multiset{}))
      else Some(Outcome(e, [StartLoading, StopLoading, ShowError(UploadFailed)], multiset{}))
    case Create =>
      (match e.parent
       case Some(_) => Some(CreateInParent(e, env, multiset{}))
       case None => Some(CreateInParent(e.(parent := Some(env.chosenParent)), env, multiset{ChooseParentNode})))
    case _ => None
  }

  /** `editFile` (`shallUpdateContent` false) and `editAfterOpen` (true) from view mode. */
  function StartEditing(e: Editor, env: Env, shallUpdateContent: bool): Outcome
  {
    if Editable(e.file, env) then Outcome(e.(mode := Edit), Configure(e, Edit, shallUpdateContent, env), multiset{})
    else Outcome(e, [ShowError(UneditableLargeFile)], multiset{})
  }

  /** `cancelText(content:)`: changed content asks before discarding; otherwise create mode
      closes the editor and edit mode returns to view mode. */
  function Cancel(e: Editor, content: string, env: Env): Option<Outcome>
  {
    if e.mode != Create && e.mode != Edit then None
    else if content != e.file.content then Some(Outcome(e, [ShowDiscardChangeAlert], multiset{}))
    else if e.mode == Create then Some(Outcome(e, [], multiset{DismissTextEditor}))
    else Some(Outcome(e.(mode := View), Configure(e, View, true, env), multiset{}))
  }

  /** `dispatch(_:)`. */
  function Dispatch(e: Editor, a: Action, env: Env): (r: Option<Outcome>)
    ensures r.Some? ==> r.value.editor.file == e.file && r.value.editor.node == e.node
    ensures r.Some? && e.mode != Create ==> r.value.editor.mode != Create
  {
    match a
    case SetUpView => SetUp(e, env)
    case SaveText(_) => Save(e, env)
    case RenameFile =>
      if e.mode == Create then Some(Outcome(e, [ShowRenameAlert(e.file.fileName)], multiset{})) else None
    case RenameFileTo(newName) =>
      if e.mode == Create && e.parent.Some? then Some(Outcome(e, [], multiset{UploadAs(newName)})) else None
    case DismissTextEditorVC => Some(Outcome(e, [], multiset{DismissTextEditor}))
    case EditFile => if e.mode == View then Some(StartEditing(e, env, false)) else None
    case EditAfterOpen =>
      if e.mode == View then Some(StartEditing(e, env, true))
      else if e.mode == Load then Some(Outcome(e, [], multiset{}))
      else None
    case ShowActionsAction =>
      if e.mode == View && e.node.Some? then Some(Outcome(e, [], multiset{ShowActions})) else None
    case CancelText(content) => Cancel(e, content, env)
    case DownloadToOffline =>
      if e.mode == View && e.node.Some? then Some(Outcome(e, [], multiset{ShowDownloadTransfer})) else None
    case ImportNodeAction => if e.mode == View then Some(Outcome(e, [], multiset{ImportNode})) else None
    case ExportFileAction =>
      if e.mode == View && e.node.Some? then Some(Outcome(e, [], multiset{ExportFile})) else None
  }

  // ---------------------------------------------------------------------------
  // Properties

  /** Every `configView` is followed at once by the navigation bar of the same mode. */
  predicate NavbarFollowsConfig(cs: seq<Command>)
  {
    forall i :: 0 <= i < |cs| && cs[i].ConfigView? ==>
      i + 1 < |cs| && cs[i + 1] == SetupNavbarItems(NavbarFor(cs[i].model.mode))
  }

  /** The mode the last `configView` shows, if any. */
  function LastConfiguredMode(cs: seq<Command>): (r: Option<Mode>)
    ensures r.Some? <==> exists i :: 0 <= i < |cs| && cs[i].ConfigView?
    ensures r.Some? ==> exists i :: (0 <= i < |cs| && cs[i].ConfigView? && cs[i].model.mode == r.value &&
      forall j :: i < j < |cs| ==> !cs[j].ConfigView?)
    decreases |cs|
  {
    if |cs| == 0 then None
    else if cs[|cs| - 1].ConfigView? then Some(cs[|cs| - 1].model.mode)
    else
      var r := LastConfiguredMode(cs[..|cs| - 1]);
      assert forall i :: 0 <= i < |cs| - 1 ==> cs[..|cs| - 1][i] == cs[i];
      r
  }

  /** After an action from mode `before`, the view shows the editor's mode: the mode is the
      one the last `configView` set, or `before` when nothing was configured; and each
      configuration comes with its navigation bar. */
  predicate Consistent(before: Mode, o: Outcome)
  {
    && NavbarFollowsConfig(o.commands)
    && o.editor.mode == (match LastConfiguredMode(o.commands) case Some(m) => m case None => before)
  }

  /** Every action keeps the view and the editor's mode in step. */
  lemma ViewShowsMode(e: Editor, a: Action, env: Env)
    requires Dispatch(e, a, env).Some?
    ensures Consistent(e.mode, Dispatch(e, a, env).value)
  {
    var o := Dispatch(e, a, env).value;
    match a
    case SetUpView => SetUpConsistent(e, env);
    case SaveText(_) => SaveConsistent(e, env);
    case EditFile => EditingConsistent(e, env, false);
    case EditAfterOpen =>
      if e.mode == View { EditingConsistent(e, env, true); } else { NoConfig(o.commands); }
    case CancelText(content) => CancelConsistent(e, content, env);
    case _ => NoConfig(o.commands);
  }

  lemma SetUpConsistent(e: Editor, env: Env)
    requires SetUp(e, env).Some?
    ensures Consistent(e.mode, SetUp(e, env).value)
  {
    var cs := SetUp(e, env).value.commands;
    if e.mode == Load {
      var loading := [SetupLoadViews] + Configure(e, Load, false, env)
        + [UpdateProgressView(env.transferredBytes, env.totalBytes)];
      if env.download == Downloaded(true) {
        LoadedTrace(cs, loading, Configure(e, View, true, env));
        LastConfigIs(cs, 4);
      } else {
        assert forall i :: 0 <= i < |loading| ==> cs[i] == loading[i];
        LastConfigIs(cs, 1);
      }
    } else {
      LastConfigIs(cs, 0);
    }
  }

  /** The load views followed by the view-mode configuration. */
  lemma LoadedTrace(cs: seq<Command>, loading: seq<Command>, tail: seq<Command>)
    requires |loading| == 4 && loading[1].ConfigView? && loading[2] == SetupNavbarItems(NavbarFor(loading[1].model.mode))
    requires !loading[0].ConfigView? && !loading[3].ConfigView?
    requires |tail| == 2 && tail[0].ConfigView? && tail[1] == SetupNavbarItems(NavbarFor(tail[0].model.mode))
    requires cs == loading + tail
    ensures NavbarFollowsConfig(cs)
  {
    forall i | 0 <= i < |cs| && cs[i].ConfigView?
      ensures i + 1 < |cs| && cs[i + 1] == SetupNavbarItems(NavbarFor(cs[i].model.mode))
    {
      if i < |loading| {
        assert cs[i] == loading[i];
      } else {
        assert cs[i] == tail[i - |loading|];
      }
    }
  }

  lemma SaveConsistent(e: Editor, env: Env)
    requires Save(e, env).Some?
    ensures Consistent(e.mode, Save(e, env).value)
  {
    var cs := Save(e, env).value.commands;
    if e.mode == Edit && env.uploadSucceeds { LastConfigIs(cs, 2); } else { NoConfig(cs); }
  }

  lemma EditingConsistent(e: Editor, env: Env, shallUpdateContent: bool)
    ensures Consistent(e.mode, StartEditing(e, env, shallUpdateContent))
  {
    var cs := StartEditing(e, env, shallUpdateContent).commands;
    if Editable(e.file, env) { LastConfigIs(cs, 0); } else { NoConfig(cs); }
  }

  lemma CancelConsistent(e: Editor, content: string, env: Env)
    requires Cancel(e, content, env).Some?
    ensures Consistent(e.mode, Cancel(e, content, env).value)
  {
    var cs := Cancel(e, content, env).value.commands;
    if content == e.file.content && e.mode == Edit { LastConfigIs(cs, 0); } else { NoConfig(cs); }
  }

  /** The last `configView` of a trace is at `k`. */
  lemma LastConfigIs(cs: seq<Command>, k: nat)
    requires k < |cs| && cs[k].ConfigView?
    requires forall j :: k < j < |cs| ==> !cs[j].ConfigView?
    ensures LastConfiguredMode(cs) == Some(cs[k].model.mode)
  {
    var r := LastConfiguredMode(cs);
    var i :| 0 <= i < |cs| && cs[i].ConfigView? && cs[i].model.mode == r.value &&
      forall j :: i < j < |cs| ==> !cs[j].ConfigView?;
    assert i == k;
  }

  /** A trace without `configView`. */
  lemma NoConfig(cs: seq<Command>)
    requires forall j :: 0 <= j < |cs| ==> !cs[j].ConfigView?
    ensures LastConfiguredMode(cs) == None
    ensures NavbarFollowsConfig(cs)
  {
  }

  /** Editing is refused exactly at and above the size limit: `editFile` and `editAfterOpen`
      from view mode enter edit mode when the file is smaller than the limit, configuring
      the view with the edit model (content refreshed only after opening) and the edit
      navigation bar; otherwise they only show the large-file error. */
  lemma EditThreshold(e: Editor, a: Action, env: Env)
    requires e.mode == View && (a == EditFile || a == EditAfterOpen)
    ensures var o := Dispatch(e, a, env).value;
      && (o.editor.mode == Edit <==> e.file.size < env.maxEditableFileSize)
      && o.calls == multiset{}
      && (e.file.size < env.maxEditableFileSize ==>
            o.commands == [ ConfigView(EditorModel(e.file, Edit, None), a == EditAfterOpen, env.inRubbishBin, env.isBackupNode),
                            SetupNavbarItems(Navbar(CancelItem, Some(SaveItem), Edit)) ])
      && (e.file.size >= env.maxEditableFileSize ==> o.commands == [ShowError(UneditableLargeFile)] && o.editor == e)
  {
  }

  /** `editAfterOpen` while the file is still loading does nothing. */
  lemma EditAfterOpenWhileLoading(e: Editor, env: Env)
    requires e.mode == Load
    ensures Dispatch(e, EditAfterOpen, env) == Some(Outcome(e, [], multiset{}))
  {
  }

  /** Cancelling with changed content in create or edit mode only asks whether to discard. */
  lemma CancelChangedAsks(e: Editor, content: string, env: Env)
    requires e.mode == Create || e.mode == Edit
    requires content != e.file.content
    ensures Dispatch(e, CancelText(content), env) == Some(Outcome(e, [ShowDiscardChangeAlert], multiset{}))
  {
  }

  /** In create mode the destination is asked for once exactly when there is no parent,
      and a duplicate name stops before uploading or dismissing anything; a unique name
      dismisses the editor and the browser, showing the upload error only when the upload
      fails. */
  lemma CreateAsksForParent(e: Editor, content: string, env: Env)
    requires e.mode == Create
    ensures var o := Dispatch(e, SaveText(content), env).value;
      && (ChooseParentNode in o.calls <==> e.parent.None?)
      && o.calls[ChooseParentNode] == (if e.parent.None? then 1 else 0)
      && (env.duplicateName ==> o.commands == [ShowDuplicateNameAlert(e.file.fileName)] && DismissTextEditor !in o.calls)
      && (!env.duplicateName ==> o.calls[DismissTextEditor] == 1 && o.calls[DismissBrowser] == 1)
      && (!env.duplicateName ==> o.commands == (if env.uploadSucceeds then [] else [ShowError(UploadFailed)]))
      && o.editor.parent.Some?
  {
  }

  /** Setting up a view, create or edit screen configures it, with its content, and then
      its navigation bar; only view mode shows the access level. */
  lemma SetUpScreen(e: Editor, env: Env)
    requires e.mode != Load
    ensures var o := Dispatch(e, SetUpView, env).value;
      && o.editor == e && o.calls == multiset{}
      && |o.commands| == 2 && o.commands[0].ConfigView? && o.commands[0].shallUpdateContent
      && o.commands[0].model == EditorModel(e.file, e.mode, if e.mode == View then env.accessLevel else None)
      && o.commands[1] == SetupNavbarItems(NavbarFor(e.mode))
  {
  }

  /** Setting up load mode shows the load views, the load configuration without content
      and the download's progress; then the file in view mode when it is read, an error
      when the download fails, and nothing more when the file cannot be read. */
  lemma SetUpLoad(e: Editor, env: Env)
    requires e.mode == Load && e.node.Some?
    ensures var o := Dispatch(e, SetUpView, env).value;
      && |o.commands| >= 4
      && o.commands[0] == SetupLoadViews
      && o.commands[1].ConfigView? && o.commands[1].model.mode == Load && !o.commands[1].shallUpdateContent
      && o.commands[2] == SetupNavbarItems(NavbarFor(Load))
      && o.commands[3] == UpdateProgressView(env.transferredBytes, env.totalBytes)
      && (env.download == DownloadFailure ==>
            o.commands[4..] == [ShowError(DownloadFailed)] && o.editor.mode == Load)
      && (env.download == Downloaded(true) ==>
            |o.commands| == 6 && o.commands[4].ConfigView? && o.commands[4].model.mode == View
            && o.commands[4].shallUpdateContent && o.editor.mode == View)
      && (env.download == Downloaded(false) ==> |o.commands| == 4 && o.editor.mode == Load)
      && var loading := [ SetupLoadViews,
                          ConfigView(EditorModel(e.file, Load, None), false, env.inRubbishBin, env.isBackupNode),
                          SetupNavbarItems(Navbar(CloseItem, None, Load)),
                          UpdateProgressView(env.transferredBytes, env.totalBytes) ];
         o.commands == match env.download
           case DownloadFailure => loading + [ShowError(DownloadFailed)]
           case Downloaded(readable) =>
             if readable then
               loading + [ ConfigView(EditorModel(e.file, View, env.accessLevel), true, env.inRubbishBin, env.isBackupNode),
                           SetupNavbarItems(Navbar(CloseItem, Some(MoreItem), View)) ]
             else loading
  {
  }

  /** Saving in edit mode shows and hides the loading indicator, then returns to view mode
      without reloading the content, or shows the upload error and stays in edit mode. */
  lemma SaveInEdit(e: Editor, content: string, env: Env)
    requires e.mode == Edit
    ensures var o := Dispatch(e, SaveText(content), env).value;
      && o.commands[..2] == [StartLoading, StopLoading] && o.calls == multiset{}
      && (env.uploadSucceeds ==>
            o.commands[2..] == Configure(e, View, false, env) && o.editor.mode == View)
      && (!env.uploadSucceeds ==> o.commands[2..] == [ShowError(UploadFailed)] && o.editor.mode == Edit)
  {
  }

  /** Cancelling without changes closes a new file and returns an edited one to view mode
      with its content reloaded. */
  lemma CancelUnchanged(e: Editor, env: Env)
    requires e.mode == Create || e.mode == Edit
    ensures var o := Dispatch(e, CancelText(e.file.content), env).value;
      && (e.mode == Create ==> o.commands == [] && o.calls == multiset{DismissTextEditor})
      && (e.mode == Edit ==> o.commands == Configure(e, View, true, env) && o.editor.mode == View)
  {
  }

  /** The router actions of view mode send nothing to the view and call their own router
      method once: importing needs no node, the others act on the node. */
  lemma RouterActions(e: Editor, env: Env)
    requires e.mode == View
    ensures Dispatch(e, ImportNodeAction, env) == Some(Outcome(e, [], multiset{ImportNode}))
    ensures e.node.Some? ==> Dispatch(e, ShowActionsAction, env) == Some(Outcome(e, [], multiset{ShowActions}))
    ensures e.node.Some? ==> Dispatch(e, DownloadToOffline, env) == Some(Outcome(e, [], multiset{ShowDownloadTransfer}))
    ensures e.node.Some? ==> Dispatch(e, ExportFileAction, env) == Some(Outcome(e, [], multiset{ExportFile}))
  {
  }

  /** Dismissing works in every mode: the router dismisses the editor and nothing else. */
  lemma DismissAnywhere(e: Editor, env: Env)
    ensures Dispatch(e, DismissTextEditorVC, env) == Some(Outcome(e, [], multiset{DismissTextEditor}))
  {
  }

  /** Actions in order; `None` once an action is not pinned down. */
  function Run(e: Editor, actions: seq<Action>, env: Env): Option<Editor>
    decreases |actions|
  {
    if |actions| == 0 then Some(e)
    else match Run(e, actions[..|actions| - 1], env)
      case None => None
      case Some(before) =>
        match Dispatch(before, actions[|actions| - 1], env)
        case None => None
        case Some(o) => Some(o.editor)
  }

  /** Only a new file is edited in create mode: no run from another mode reaches it, the
      file is never replaced, and edit mode is reached only with a file below the size limit
      (or when the run started in edit mode). */
  lemma {:induction false} RunKeepsCreateAndLimit(e: Editor, actions: seq<Action>, env: Env)
    requires Run(e, actions, env).Some?
    ensures var f := Run(e, actions, env).value;
      && f.file == e.file
      && (e.mode != Create ==> f.mode != Create)
      && (f.mode == Edit ==> e.mode == Edit || Editable(e.file, env))
    decreases |actions|
  {
    if |actions| > 0 {
      RunKeepsCreateAndLimit(e, actions[..|actions| - 1], env);
      var before := Run(e, actions[..|actions| - 1], env).value;
      EnteringEdit(before, actions[|actions| - 1], env);
    }
  }

  /** One action enters edit mode only from edit mode or with an editable file. */
  lemma EnteringEdit(e: Editor, a: Action, env: Env)
    requires Dispatch(e, a, env).Some?
    ensures Dispatch(e, a, env).value.editor.mode == Edit ==> e.mode == Edit || Editable(e.file, env)
  {
  }
}
