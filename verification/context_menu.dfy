/** `ContextMenuBuilder`'s action entities: the upload-add actions, the view-mode, sort and
    chat-status actions whose state shows the current selection, and the do-not-disturb
    actions. */
module ContextMenu {
  import opened Common

  /** `SortOrderEntity`: the eight orders the menu offers, and the others by a code. */
  datatype SortOrder =
    | DefaultAsc | DefaultDesc | SizeDesc | SizeAsc
    | ModificationDesc | ModificationAsc | LabelAsc | FavouriteAsc
    | OtherSort(code: int)

  /** `ViewModePreferenceEntity`: list, thumbnail, and the others by a code. */
  datatype ViewMode = List | Thumbnail | OtherMode(code: int)

  /** `ChatStatusEntity` and `DNDTurnOnOptionEntity`, by raw value. */
  datatype ChatStatus = ChatStatus(raw: int)
  datatype DoNotDisturbOption = DoNotDisturbOption(raw: int)

  datatype UploadAddAction = ChooseFromPhotos | Capture | ImportFrom | NewTextFile | ScanDocument | NewFolder
  datatype DisplayAction = SelectAction | ThumbnailViewAction | ListViewAction | ClearRubbishBin | MediaDiscovery | Filter
  datatype QuickAction =
    | Info | Download | ShareLink | ManageLink | RemoveLink | LeaveSharing
    | RemoveSharing | Copy | ShareFolder | ManageFolder | RenameAction
  datatype RubbishBinAction = Restore | RubbishInfo | Versions | Remove
  datatype QrAction = Share | Settings | ResetQR
  datatype MeetingAction = StartMeeting | JoinMeeting | ScheduleMeeting

  /** `CMElementTypeEntity`, restricted to the groups this builder uses. */
  datatype ActionType =
    | UploadAdd(uploadAction: UploadAddAction)
    | Display(displayAction: DisplayAction)
    | Sort(sortOrder: SortOrder)
    | QuickActions(quickAction: QuickAction)
    | RubbishBin(rubbishAction: RubbishBinAction)
    | ChatStatusType(status: ChatStatus)
    | ChatDoNotDisturbEnabled(option: DoNotDisturbOption)
    | Qr(qrAction: QrAction)
    | Meeting(meetingAction: MeetingAction)

  datatype ActionState = On | Off

  /** `CMActionEntity`: `state` is `None` when the entity is built without one and keeps
      its initialiser's default. */
  datatype CMActionEntity = CMActionEntity(actionType: ActionType, state: Option<ActionState>)

  /** What the builder reads: `currentSortType()`, `currentViewMode()` and
      `currentChatStatus()`. */
  datatype Builder = Builder(currentSortType: SortOrder, currentViewMode: ViewMode, currentChatStatus: ChatStatus)

  /** `.on` exactly when the action's value is the current one. */
  function Toggle(selected: bool): (s: ActionState)
    ensures s == On <==> selected
  {
    if selected then On else Off
  }

  // ---------------------------------------------------------------------------
  // Upload add actions

  /** `choosePhotoVideo`, `capturePhotoVideo`, `importFromFiles`, `newTextFile`,
      `scanDocument` and `newFolder`, in that order. */
  function UploadAddActions(): (r: seq<CMActionEntity>)
    ensures |r| == 6
    ensures forall i :: 0 <= i < |r| ==> r[i].actionType.UploadAdd? && r[i].state.None?
    ensures RankedFrom(r, 0)
  {
    [ CMActionEntity(UploadAdd(ChooseFromPhotos), None),
      CMActionEntity(UploadAdd(Capture), None),
      CMActionEntity(UploadAdd(ImportFrom), None),
      CMActionEntity(UploadAdd(NewTextFile), None),
      CMActionEntity(UploadAdd(ScanDocument), None),
      CMActionEntity(UploadAdd(NewFolder), None) ]
  }

  /** Each upload-add action carries its own action type. */
  lemma UploadAddDistinct()
    ensures forall i, j :: 0 <= i < j < 6 ==>
      UploadAddActions()[i].actionType != UploadAddActions()[j].actionType
  {
  }

  // ---------------------------------------------------------------------------
  // Actions without a state

  /** `select`, `emptyRubbishBin`, `mediaDiscovery` and `filter`. */
  function DisplayActions(): (r: seq<CMActionEntity>)
    ensures |r| == 4
    ensures forall i :: 0 <= i < |r| ==> r[i].actionType.Display? && r[i].state.None?
    ensures RankedFrom(r, 6)
  {
    [CMActionEntity(Display(SelectAction), None), CMActionEntity(Display(ClearRubbishBin), None), CMActionEntity(Display(MediaDiscovery), None), CMActionEntity(Display(Filter), None)]
  }

  /** The quick folder actions, from `info` to `rename`. */
  function QuickFolderActions(): (r: seq<CMActionEntity>)
    ensures |r| == 11
    ensures forall i :: 0 <= i < |r| ==> r[i].actionType.QuickActions? && r[i].state.None?
    ensures RankedFrom(r, 10)
  {
    [ CMActionEntity(QuickActions(Info), None), CMActionEntity(QuickActions(Download), None), CMActionEntity(QuickActions(ShareLink), None),
      CMActionEntity(QuickActions(ManageLink), None), CMActionEntity(QuickActions(RemoveLink), None), CMActionEntity(QuickActions(LeaveSharing), None),
      CMActionEntity(QuickActions(RemoveSharing), None), CMActionEntity(QuickActions(Copy), None), CMActionEntity(QuickActions(ShareFolder), None),
      CMActionEntity(QuickActions(ManageFolder), None), CMActionEntity(QuickActions(RenameAction), None) ]
  }

  /** `restore`, `infoRubbishBin`, `versions` and `remove`. */
  function RubbishBinActions(): (r: seq<CMActionEntity>)
    ensures |r| == 4
    ensures forall i :: 0 <= i < |r| ==> r[i].actionType.RubbishBin? && r[i].state.None?
    ensures RankedFrom(r, 21)
  {
    [CMActionEntity(RubbishBin(Restore), None), CMActionEntity(RubbishBin(RubbishInfo), None), CMActionEntity(RubbishBin(Versions), None), CMActionEntity(RubbishBin(Remove), None)]
  }

  /** `share`, `settings` and `resetQR`. */
  function QrActions(): (r: seq<CMActionEntity>)
    ensures |r| == 3
    ensures forall i :: 0 <= i < |r| ==> r[i].actionType.Qr? && r[i].state.None?
    ensures RankedFrom(r, 25)
  {
    [CMActionEntity(Qr(Share), None), CMActionEntity(Qr(Settings), None), CMActionEntity(Qr(ResetQR), None)]
  }

  /** `startMeeting`, `joinMeeting` and `scheduleMeeting`. */
  function MeetingActions(): (r: seq<CMActionEntity>)
    ensures |r| == 3
    ensures forall i :: 0 <= i < |r| ==> r[i].actionType.Meeting? && r[i].state.None?
    ensures RankedFrom(r, 28)
  {
    [CMActionEntity(Meeting(StartMeeting), None), CMActionEntity(Meeting(JoinMeeting), None), CMActionEntity(Meeting(ScheduleMeeting), None)]
  }

  /** Every action built without a state. */
  function StatelessActions(): seq<CMActionEntity>
  {
    UploadAddActions() + DisplayActions() + QuickFolderActions() + RubbishBinActions() + QrActions() + MeetingActions()
  }

  /** Each action without a state carries its own action type, none of the view-mode
      ones, and no state. */
  lemma StatelessDistinct()
    ensures |StatelessActions()| == 31
    ensures forall i :: 0 <= i < |StatelessActions()| ==> StatelessActions()[i].state.None?
    ensures forall i, j :: 0 <= i < j < |StatelessActions()| ==>
      StatelessActions()[i].actionType != StatelessActions()[j].actionType
    ensures forall i :: 0 <= i < |StatelessActions()| ==>
      StatelessActions()[i].actionType !in {Display(ThumbnailViewAction), Display(ListViewAction)}
  {
    var all := StatelessActions();
    StatelessRanked();
    forall i, j | 0 <= i < j < |all|
      ensures all[i].actionType != all[j].actionType
    {
      assert Rank(all[i].actionType) != Rank(all[j].actionType);
    }
  }

  /** Each stateless action sits at the position its type's rank names. */
  lemma StatelessRanked()
    ensures |StatelessActions()| == 31
    ensures forall i :: 0 <= i < |StatelessActions()| ==>
      Rank(StatelessActions()[i].actionType) == i && StatelessActions()[i].state.None?
  {
    var all := StatelessActions();
    forall i | 0 <= i < |all|
      ensures Rank(all[i].actionType) == i && all[i].state.None?
    {
      if i < 6 { assert all[i] == UploadAddActions()[i]; }
      else if i < 10 { assert all[i] == DisplayActions()[i - 6]; }
      else if i < 21 { assert all[i] == QuickFolderActions()[i - 10]; }
      else if i < 25 { assert all[i] == RubbishBinActions()[i - 21]; }
      else if i < 28 { assert all[i] == QrActions()[i - 25]; }
      else { assert all[i] == MeetingActions()[i - 28]; }
    }
  }

  /** The group of stateless actions starting at `offset` is ranked from there. */
  predicate RankedFrom(g: seq<CMActionEntity>, offset: int)
  {
    forall k :: 0 <= k < |g| ==> Rank(g[k].actionType) == offset + k && g[k].state.None?
  }

  /** The position of a stateless action's type in `StatelessActions`. */
  function Rank(t: ActionType): int
  {
    match t
    case UploadAdd(a) =>
      (match a case ChooseFromPhotos => 0 case Capture => 1 case ImportFrom => 2
               case NewTextFile => 3 case ScanDocument => 4 case NewFolder => 5)
    case Display(a) =>
      (match a case SelectAction => 6 case ClearRubbishBin => 7 case MediaDiscovery => 8
               case Filter => 9 case _ => -1)
    case QuickActions(a) =>
      10 + (match a case Info => 0 case Download => 1 case ShareLink => 2 case ManageLink => 3
                    case RemoveLink => 4 case LeaveSharing => 5 case RemoveSharing => 6 case Copy => 7
                    case ShareFolder => 8 case ManageFolder => 9 case RenameAction => 10)
    case RubbishBin(a) =>
      21 + (match a case Restore => 0 case RubbishInfo => 1 case Versions => 2 case Remove => 3)
    case Qr(a) => 25 + (match a case Share => 0 case Settings => 1 case ResetQR => 2)
    case Meeting(a) => 28 + (match a case StartMeeting => 0 case JoinMeeting => 1 case ScheduleMeeting => 2)
    case _ => -1
  }

  // ---------------------------------------------------------------------------
  // View mode actions

  /** `thumbnailView`. */
  function ThumbnailView(b: Builder): (r: CMActionEntity)
    ensures r.actionType == Display(ThumbnailViewAction)
    ensures r.state == Some(On) <==> b.currentViewMode == Thumbnail
    ensures r.state.Some?
  {
    CMActionEntity(Display(ThumbnailViewAction), Some(Toggle(b.currentViewMode == Thumbnail)))
  }

  /** `listView`. */
  function ListView(b: Builder): (r: CMActionEntity)
    ensures r.actionType == Display(ListViewAction)
    ensures r.state == Some(On) <==> b.currentViewMode == List
    ensures r.state.Some?
  {
    CMActionEntity(Display(ListViewAction), Some(Toggle(b.currentViewMode == List)))
  }

  /** The thumbnail and list actions are never both on; both are off in any other mode. */
  lemma ViewModesExclusive(b: Builder)
    ensures !(ThumbnailView(b).state == Some(On) && ListView(b).state == Some(On))
    ensures b.currentViewMode.OtherMode? ==>
      ThumbnailView(b).state == Some(Off) && ListView(b).state == Some(Off)
  {
  }

  // ---------------------------------------------------------------------------
  // Sort actions

  /** The eight sort orders of the menu, in the order of `sortNameAscending`,
      `sortNameDescending`, `sortLargest`, `sortSmallest`, `sortNewest`, `sortOldest`,
      `sortLabel` and `sortFavourite`. */
  const MenuSortOrders: seq<SortOrder> :=
    [DefaultAsc, DefaultDesc, SizeDesc, SizeAsc, ModificationDesc, ModificationAsc, LabelAsc, FavouriteAsc]

  /** The sort action for `order`: on when it is the current sort order. */
  function SortAction(b: Builder, order: SortOrder): (r: CMActionEntity)
    ensures r.actionType == Sort(order)
    ensures r.state == Some(On) <==> b.currentSortType == order
    ensures r.state.Some?
  {
    CMActionEntity(Sort(order), Some(Toggle(b.currentSortType == order)))
  }

  /** The eight sort actions. */
  function SortActions(b: Builder): (r: seq<CMActionEntity>)
    ensures |r| == |MenuSortOrders|
    ensures forall i :: 0 <= i < |r| ==> r[i] == SortAction(b, MenuSortOrders[i])
  {
    seq(|MenuSortOrders|, i requires 0 <= i < |MenuSortOrders| => SortAction(b, MenuSortOrders[i]))
  }

  /** How many actions are on. */
  function OnCount(actions: seq<CMActionEntity>): (n: nat)
    ensures n <= |actions|
  {
    if |actions| == 0 then 0
    else OnCount(actions[..|actions| - 1]) + (if actions[|actions| - 1].state == Some(On) then 1 else 0)
  }

  /** The sort orders of the menu are pairwise distinct. */
  lemma MenuSortOrdersDistinct()
    ensures forall i, j :: 0 <= i < j < |MenuSortOrders| ==> MenuSortOrders[i] != MenuSortOrders[j]
  {
  }

  /** Exactly one sort action is on when the current order is one of the menu's, none
      otherwise. */
  lemma OneSortOn(b: Builder)
    ensures OnCount(SortActions(b)) == (if b.currentSortType in MenuSortOrders then 1 else 0)
  {
    MenuSortOrdersDistinct();
    OnCountOfDistinct(b, SortActions(b), MenuSortOrders);
  }

  /** Counting the on actions of sort actions built from distinct orders. */
  lemma {:induction false} OnCountOfDistinct(b: Builder, actions: seq<CMActionEntity>, orders: seq<SortOrder>)
    requires |actions| == |orders|
    requires forall i :: 0 <= i < |actions| ==> actions[i] == SortAction(b, orders[i])
    requires forall i, j :: 0 <= i < j < |orders| ==> orders[i] != orders[j]
    ensures OnCount(actions) == (if b.currentSortType in orders then 1 else 0)
    decreases |actions|
  {
    if |actions| > 0 {
      var k := |actions| - 1;
      OnCountOfDistinct(b, actions[..k], orders[..k]);
      assert orders == orders[..k] + [orders[k]];
      if b.currentSortType == orders[k] {
        assert b.currentSortType !in orders[..k];
      }
    }
  }

  // ---------------------------------------------------------------------------
  // Chat actions

  /** `chatStatus(_:)`. */
  function ChatStatusAction(b: Builder, status: ChatStatus): (r: CMActionEntity)
    ensures r.actionType == ChatStatusType(status)
    ensures r.state == Some(On) <==> b.currentChatStatus == status
    ensures r.state.Some?
  {
    CMActionEntity(ChatStatusType(status), Some(Toggle(b.currentChatStatus == status)))
  }

  /** Of two different statuses, at most one action is on. */
  lemma OneChatStatusOn(b: Builder, s: ChatStatus, t: ChatStatus)
    requires s != t
    ensures !(ChatStatusAction(b, s).state == Some(On) && ChatStatusAction(b, t).state == Some(On))
  {
  }

  /** `doNotDisturb(option:)`: carries the option, with the default state. */
  function DoNotDisturb(option: DoNotDisturbOption): (r: CMActionEntity)
    ensures r.actionType.ChatDoNotDisturbEnabled? && r.actionType.option == option
    ensures r.state.None?
  {
    CMActionEntity(ChatDoNotDisturbEnabled(option), None)
  }
}
