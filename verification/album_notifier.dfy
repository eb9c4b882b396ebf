/** `AlbumContentsUpdateNotifierRepository`: on every batch of updated nodes, decides whether
    the album on screen must reload, and if so calls the registered reload callback once.

    The per-batch tests `containsNewNode`, `hasModifiedAttributes`, `hasModifiedParent`,
    `hasPublicLink` and `isPublicLinkRemoved` are not part of this model; each is read as
    "some node of the batch carries that change". */
module AlbumNotifier {
  import opened Common

  type Handle = nat

  /** The kinds of change a node update can carry that concern an album. */
  datatype Change = Created | AttributesChanged | ParentChanged | PublicLinkAdded | PublicLinkRemoved

  /** A node of an update batch: its handle and the changes it carries. */
  datatype Node = Node(handle: Handle, changes: set<Change>)

  /** The repository: the SDK's rubbish bin node, if any, and whether `onAlbumReload` is
      set. */
  datatype Notifier = Notifier(rubbish: Option<Handle>, callbackSet: bool)

  /** `isAnyNodeMovedIntoTrash`: some node of the batch is the rubbish bin node itself. */
  function IsAnyNodeMovedIntoTrash(rubbish: Option<Handle>, nodes: seq<Node>): (r: bool)
    ensures r <==> rubbish.Some? && exists i :: 0 <= i < |nodes| && nodes[i].handle == rubbish.value
    decreases |nodes|
  {
    if |nodes| == 0 then false
    else (rubbish.Some? && nodes[0].handle == rubbish.value) || IsAnyNodeMovedIntoTrash(rubbish, nodes[1..])
  }

  /** Some node of the batch carries the change `c`. */
  function HasChange(nodes: seq<Node>, c: Change): (r: bool)
    ensures r <==> exists i :: 0 <= i < |nodes| && c in nodes[i].changes
    decreases |nodes|
  {
    if |nodes| == 0 then false
    else c in nodes[0].changes || HasChange(nodes[1..], c)
  }

  /** The six conditions of `checkAlbumForReload`, in the order it tests them. */
  function ReloadNeeded(n: Notifier, nodes: seq<Node>): bool
  {
    || IsAnyNodeMovedIntoTrash(n.rubbish, nodes)
    || HasChange(nodes, Created)
    || HasChange(nodes, AttributesChanged)
    || HasChange(nodes, ParentChanged)
    || HasChange(nodes, PublicLinkAdded)
    || HasChange(nodes, PublicLinkRemoved)
  }

  /** A node that on its own makes the album reload: the rubbish bin, or a node carrying
      any change. */
  predicate Reloading(n: Notifier, node: Node)
  {
    (n.rubbish.Some? && node.handle == n.rubbish.value) || node.changes != {}
  }

  /** Some node of the batch makes the album reload. */
  predicate Worthy(n: Notifier, nodes: seq<Node>)
  {
    exists i :: 0 <= i < |nodes| && Reloading(n, nodes[i])
  }

  /** `checkAlbumForReload`: how many times the reload callback runs for one batch. */
  function CheckAlbumForReload(n: Notifier, nodes: seq<Node>): (calls: nat)
    ensures calls <= 1
    ensures calls == 1 <==> n.callbackSet && Worthy(n, nodes)
  {
    if ReloadNeeded(n, nodes) then
      ReloadNeededIff(n, nodes);
      if n.callbackSet then 1 else 0
    else
      ReloadNeededIff(n, nodes);
      0
  }

  /** The handler `init` installs on the nodes-update listener: it captures the repository
      weakly, so once the repository is gone (`None`) a batch does nothing. */
  function OnNodesUpdate(self: Option<Notifier>, nodes: seq<Node>): (calls: nat)
    ensures self.None? ==> calls == 0
    ensures self.Some? ==> calls == CheckAlbumForReload(self.value, nodes)
  {
    match self
    case None => 0
    case Some(n) => CheckAlbumForReload(n, nodes)
  }

  /** The callbacks run over a sequence of batches. */
  function Deliver(self: Option<Notifier>, batches: seq<seq<Node>>): (calls: nat)
    ensures calls <= |batches|
    decreases |batches|
  {
    if |batches| == 0 then 0
    else Deliver(self, batches[..|batches| - 1]) + OnNodesUpdate(self, batches[|batches| - 1])
  }

  /** How many batches hold a node that makes the album reload. */
  function ReloadWorthy(n: Notifier, batches: seq<seq<Node>>): (k: nat)
    ensures k <= |batches|
    decreases |batches|
  {
    if |batches| == 0 then 0
    else
      ReloadWorthy(n, batches[..|batches| - 1])
      + (if Worthy(n, batches[|batches| - 1]) then 1 else 0)
  }

  // ---------------------------------------------------------------------------
  // Properties

  /** The six conditions hold together exactly when some node is reloading. */
  lemma ReloadNeededIff(n: Notifier, nodes: seq<Node>)
    ensures ReloadNeeded(n, nodes) <==> Worthy(n, nodes)
  {
    if Worthy(n, nodes) {
      var i :| 0 <= i < |nodes| && Reloading(n, nodes[i]);
      if !(n.rubbish.Some? && nodes[i].handle == n.rubbish.value) {
        var c :| c in nodes[i].changes;
        assert HasChange(nodes, c);
        match c
        case Created =>
        case AttributesChanged =>
        case ParentChanged =>
        case PublicLinkAdded =>
        case PublicLinkRemoved =>
      }
    }
    if ReloadNeeded(n, nodes) {
      if IsAnyNodeMovedIntoTrash(n.rubbish, nodes) {
        var i :| 0 <= i < |nodes| && nodes[i].handle == n.rubbish.value;
        assert Reloading(n, nodes[i]);
      } else if HasChange(nodes, Created) {
        ChangedIsWorthy(n, nodes, Created);
      } else if HasChange(nodes, AttributesChanged) {
        ChangedIsWorthy(n, nodes, AttributesChanged);
      } else if HasChange(nodes, ParentChanged) {
        ChangedIsWorthy(n, nodes, ParentChanged);
      } else if HasChange(nodes, PublicLinkAdded) {
        ChangedIsWorthy(n, nodes, PublicLinkAdded);
      } else {
        ChangedIsWorthy(n, nodes, PublicLinkRemoved);
      }
    }
  }

  lemma ChangedIsWorthy(n: Notifier, nodes: seq<Node>, c: Change)
    requires HasChange(nodes, c)
    ensures Worthy(n, nodes)
  {
    var i :| 0 <= i < |nodes| && c in nodes[i].changes;
    assert Reloading(n, nodes[i]);
  }

  /** An empty batch never reloads, and neither does any batch while no callback is set. */
  lemma NothingToReload(n: Notifier, nodes: seq<Node>)
    ensures |nodes| == 0 ==> !IsAnyNodeMovedIntoTrash(n.rubbish, nodes) && CheckAlbumForReload(n, nodes) == 0
    ensures !n.callbackSet ==> CheckAlbumForReload(n, nodes) == 0
  {
  }

  /** Every batch reaches `checkAlbumForReload` while the repository lives: the callback
      runs once per batch that holds a reloading node, and never without a callback. */
  lemma {:induction false} DeliverCounts(n: Notifier, batches: seq<seq<Node>>)
    ensures Deliver(Some(n), batches) == (if n.callbackSet then ReloadWorthy(n, batches) else 0)
    ensures Deliver(None, batches) == 0
    decreases |batches|
  {
    if |batches| > 0 {
      DeliverCounts(n, batches[..|batches| - 1]);
    }
  }
}
