/**
 * The panel's read-only walks over the tree's current selection: the usage
 * infos shown in the preview, the navigatables offered to the IDE and
 * navigated on Enter.
 *
 * A selection is what JTree.getSelectionPaths() returns: None for null (no
 * selection), otherwise the selected paths in order. Only a path's last
 * component matters, so a path is modelled by that component.
 */
module SliceSelection {
  import opened Options
  import opened Sequences

  /** A com.intellij.usages.Usage, with the answer its canNavigateToSource() gives. */
  datatype Usage = Usage(id: nat, canNavigateToSource: bool)

  /** The value an AbstractTreeNode wraps: a Usage or anything else. */
  datatype NodeValue = UsageValue(usage: Usage) | OtherValue(id: nat)

  /** A Navigatable, by the kinds the Enter handler tells apart. */
  datatype Navigatable =
    | UsageTarget(usage: Usage)
    | TreeNodeTarget(id: nat, value: NodeValue, canNavigate: bool)
    | OtherTarget(id: nat, canNavigate: bool)

  /** canNavigateToSource() of a navigatable. */
  function CanNavigateToSource(n: Navigatable): bool {
    match n
    case UsageTarget(u) => u.canNavigateToSource
    case TreeNodeTarget(_, _, can) => can
    case OtherTarget(_, can) => can
  }

  /**
   * A tree node's user object, by the two instanceof tests made on it:
   * `sliceNodeUsageInfo` is Some(i) when it is a SliceNode whose value's
   * usage info is i, `navigatable` is Some(n) when it is a Navigatable. A
   * null user object has neither.
   */
  datatype UserObject<Info> = UserObject(sliceNodeUsageInfo: Option<Info>, navigatable: Option<Navigatable>)

  /**
   * The last component of a selected path: something that is not a
   * DefaultMutableTreeNode, or such a node with its user object and, when
   * the node itself is a Navigatable, that navigatable.
   */
  datatype PathEnd<Info> =
    | NotTreeNode
    | TreeNode(userObject: UserObject<Info>, nodeNavigatable: Option<Navigatable>)

  /** The usage info a path contributes to the preview, if any. */
  function UsageInfoOf<Info>(p: PathEnd<Info>): Option<Info> {
    match p
    case NotTreeNode => None
    case TreeNode(o, _) => o.sliceNodeUsageInfo
  }

  /** The navigatable a path contributes: its user object's first, else the node's own. */
  function NavigatableOf<Info>(p: PathEnd<Info>): Option<Navigatable> {
    match p
    case NotTreeNode => None
    case TreeNode(o, own) => if o.navigatable.Some? then o.navigatable else own
  }

  // ---------------------------------------------------------------------------
  // getSelectedUsageInfos
  // ---------------------------------------------------------------------------

  /** The usage infos of the selection: None when nothing is selected or nothing selected is a slice node. */
  function SelectedUsageInfos<Info>(selection: Option<seq<PathEnd<Info>>>): Option<seq<Info>> {
    match selection
    case None => None
    case Some(paths) =>
      var infos := FilterMap(paths, UsageInfoOf);
      if infos == [] then None else Some(infos)
  }

  method GetSelectedUsageInfos<Info>(selection: Option<seq<PathEnd<Info>>>) returns (infos: Option<seq<Info>>)
    ensures infos == SelectedUsageInfos(selection)
    ensures selection.None? ==> infos.None?
    ensures selection.Some? ==>
              (infos.None? <==> forall i | 0 <= i < |selection.value| :: UsageInfoOf(selection.value[i]).None?)
    ensures infos.Some? ==> infos.value != [] && infos.value == FilterMap(selection.value, UsageInfoOf)
  {
    if selection.None? {
      return None;
    }
    var paths := selection.value;
    var result: seq<Info> := [];
    for i := 0 to |paths|
      invariant result == FilterMap(paths[..i], UsageInfoOf)
    {
      var p := paths[i];
      if p.TreeNode? {
        var userObject := p.userObject;
        if userObject.sliceNodeUsageInfo.Some? {
          result := result + [userObject.sliceNodeUsageInfo.value];
        }
      }
      assert paths[..i + 1][..i] == paths[..i];
    }
    assert paths[..|paths|] == paths;
    FilterMapEmpty(paths, UsageInfoOf);
    if result == [] {
      return None;
    }
    infos := Some(result);
  }

  // ---------------------------------------------------------------------------
  // getNavigatables
  // ---------------------------------------------------------------------------

  /** The navigatables of the selection, one at most per selected path; empty, never null, without a selection. */
  function SelectedNavigatables<Info>(selection: Option<seq<PathEnd<Info>>>): seq<Navigatable> {
    match selection
    case None => []
    case Some(paths) => FilterMap(paths, NavigatableOf)
  }

  method GetNavigatables<Info>(selection: Option<seq<PathEnd<Info>>>) returns (navigatables: seq<Navigatable>)
    ensures navigatables == SelectedNavigatables(selection)
    ensures selection.None? ==> navigatables == []
    ensures selection.Some? ==> |navigatables| <= |selection.value|
  {
    if selection.None? {
      return [];
    }
    var paths := selection.value;
    navigatables := [];
    for i := 0 to |paths|
      invariant navigatables == FilterMap(paths[..i], NavigatableOf)
    {
      var p := paths[i];
      if p.TreeNode? {
        if p.userObject.navigatable.Some? {
          navigatables := navigatables + [p.userObject.navigatable.value];
        } else if p.nodeNavigatable.Some? {
          navigatables := navigatables + [p.nodeNavigatable.value];
        }
      }
      assert paths[..i + 1][..i] == paths[..i];
    }
    assert paths[..|paths|] == paths;
  }

  /** Each selected path that is a tree node with a navigatable user object contributes that object. */
  lemma UserObjectPreferred<Info>(paths: seq<PathEnd<Info>>, i: nat)
    requires i < |paths|
    requires paths[i].TreeNode? && paths[i].userObject.navigatable.Some?
    ensures paths[i].userObject.navigatable.value in SelectedNavigatables(Some(paths))
  {
    FilterMapMember(paths, NavigatableOf, paths[i].userObject.navigatable.value);
  }

  /** The data key calcData is asked for: the navigatable array, or any other key. */
  datatype DataKey = NavigatableArray | OtherDataKey(id: nat)

  /**
   * calcData: asked for the navigatable array, it publishes the selection's
   * navigatables when there are any; asked for any other key, it publishes nothing.
   */
  method CalcData<Info>(key: DataKey, selection: Option<seq<PathEnd<Info>>>)
    returns (published: Option<seq<Navigatable>>)
    ensures !key.NavigatableArray? ==> published.None?
    ensures key.NavigatableArray? ==> (published.None? <==> SelectedNavigatables(selection) == [])
    ensures published.Some? ==> published.value == SelectedNavigatables(selection)
  {
    published := None;
    if key == NavigatableArray {
      var navigatables := GetNavigatables(selection);
      if navigatables != [] {
        published := Some(navigatables);
      }
    }
  }

  // ---------------------------------------------------------------------------
  // The preview push of treeSelectionChanged (the deferred runnable's body)
  // ---------------------------------------------------------------------------

  /** The infos pushed to the preview panel, if any: nothing once disposed, without a preview, or without infos. */
  method PreviewUpdate<Info>(disposed: bool, hasPreviewPanel: bool, selection: Option<seq<PathEnd<Info>>>)
    returns (pushed: Option<seq<Info>>)
    ensures pushed.Some? <==> !disposed && hasPreviewPanel && SelectedUsageInfos(selection).Some?
    ensures pushed.Some? ==> pushed == SelectedUsageInfos(selection)
  {
    if disposed {
      return None;
    }
    var infos := GetSelectedUsageInfos(selection);
    if infos.Some? && hasPreviewPanel {
      pushed := infos;
    } else {
      pushed := None;
    }
  }

  // ---------------------------------------------------------------------------
  // The Enter key
  // ---------------------------------------------------------------------------

  /** KeyEvent.VK_ENTER. */
  const VK_ENTER: int := 10

  /** What the Enter handler does to the IDE, in order. */
  datatype Effect = Navigate(target: Navigatable) | Highlight(usage: Usage)

  /** A tree node wrapping a Usage stands for that Usage; anything else for itself. */
  function Unwrapped(n: Navigatable): Navigatable {
    match n
    case TreeNodeTarget(_, UsageValue(u), _) => UsageTarget(u)
    case _ => n
  }

  /** The effects of handling one navigatable. */
  function EffectsOf(n: Navigatable): seq<Effect> {
    var t := Unwrapped(n);
    if !CanNavigateToSource(t) then []
    else if t.UsageTarget? then [Navigate(t), Highlight(t.usage)]
    else [Navigate(t)]
  }

  /** The effects of handling the navigatables in order. */
  function EnterEffects(navigatables: seq<Navigatable>): seq<Effect>
    decreases |navigatables|
  {
    if navigatables == [] then []
    else EnterEffects(navigatables[..|navigatables| - 1]) + EffectsOf(navigatables[|navigatables| - 1])
  }

  /**
   * keyPressed: on Enter with a non-empty navigatable list, every navigatable
   * (unwrapped) is handled in order and the event is consumed; on Enter with
   * an empty list, and on any other key, nothing happens and the event is left.
   */
  method KeyPressed<Info>(keyCode: int, selection: Option<seq<PathEnd<Info>>>)
    returns (effects: seq<Effect>, consumed: bool)
    ensures keyCode != VK_ENTER ==> effects == [] && !consumed
    ensures keyCode == VK_ENTER ==>
              && consumed == (SelectedNavigatables(selection) != [])
              && effects == EnterEffects(SelectedNavigatables(selection))
  {
    effects, consumed := [], false;
    if keyCode != VK_ENTER {
      return;
    }
    var navigatables := GetNavigatables(selection);
    if navigatables == [] {
      return;
    }
    for i := 0 to |navigatables|
      invariant effects == EnterEffects(navigatables[..i])
    {
      var navigatable := navigatables[i];
      if navigatable.TreeNodeTarget? && navigatable.value.UsageValue? {
        navigatable := UsageTarget(navigatable.value.usage);
      }
      if CanNavigateToSource(navigatable) {
        effects := effects + [Navigate(navigatable)];
        if navigatable.UsageTarget? {
          effects := effects + [Highlight(navigatable.usage)];
        }
      }
      assert navigatables[..i + 1][..i] == navigatables[..i];
    }
    assert navigatables[..|navigatables|] == navigatables;
    consumed := true;
  }

  // ---------------------------------------------------------------------------
  // What the Enter effects amount to
  // ---------------------------------------------------------------------------

  /** The target an effect navigates to, if it is a navigation. */
  function NavigatedBy(e: Effect): Option<Navigatable> {
    if e.Navigate? then Some(e.target) else None
  }

  /** The usage an effect highlights, if it is a highlight. */
  function HighlightedBy(e: Effect): Option<Usage> {
    if e.Highlight? then Some(e.usage) else None
  }

  /** The reference choice: a navigatable is navigated, unwrapped, exactly when it can navigate to source. */
  function NavigationOf(n: Navigatable): Option<Navigatable> {
    var t := Unwrapped(n);
    if CanNavigateToSource(t) then Some(t) else None
  }

  /** The reference choice: only navigated usages are highlighted. */
  function HighlightOf(n: Navigatable): Option<Usage> {
    var t := Unwrapped(n);
    if CanNavigateToSource(t) && t.UsageTarget? then Some(t.usage) else None
  }

  /** One navigatable's effects navigate as the reference choice says. */
  lemma EffectsOfNavigate(n: Navigatable)
    ensures FilterMap(EffectsOf(n), NavigatedBy) == Chosen(NavigationOf(n))
    ensures FilterMap(EffectsOf(n), HighlightedBy) == Chosen(HighlightOf(n))
  {
    var t := Unwrapped(n);
    if CanNavigateToSource(t) && t.UsageTarget? {
      assert EffectsOf(n)[..1] == [Navigate(t)];
    }
  }

  /**
   * The navigations made on Enter are exactly the unwrapped navigatables that
   * can navigate to source, in selection order.
   */
  lemma {:induction false} EnterNavigations(navigatables: seq<Navigatable>)
    ensures FilterMap(EnterEffects(navigatables), NavigatedBy) == FilterMap(navigatables, NavigationOf)
    decreases |navigatables|
  {
    if navigatables != [] {
      var init := navigatables[..|navigatables| - 1];
      var last := navigatables[|navigatables| - 1];
      EnterNavigations(init);
      FilterMapAppend(EnterEffects(init), EffectsOf(last), NavigatedBy);
      EffectsOfNavigate(last);
    }
  }

  /** The highlights made on Enter are exactly the navigated usages, in selection order. */
  lemma {:induction false} EnterHighlights(navigatables: seq<Navigatable>)
    ensures FilterMap(EnterEffects(navigatables), HighlightedBy) == FilterMap(navigatables, HighlightOf)
    decreases |navigatables|
  {
    if navigatables != [] {
      var init := navigatables[..|navigatables| - 1];
      var last := navigatables[|navigatables| - 1];
      EnterHighlights(init);
      FilterMapAppend(EnterEffects(init), EffectsOf(last), HighlightedBy);
      EffectsOfNavigate(last);
    }
  }

  /**
   * Every navigation is to a target that can navigate to source and is never
   * a tree node wrapping a usage; every highlight directly follows the
   * navigation to the same usage.
   */
  lemma {:induction false} EnterEffectsWellFormed(navigatables: seq<Navigatable>)
    ensures forall k | 0 <= k < |EnterEffects(navigatables)| && EnterEffects(navigatables)[k].Navigate? ::
              var t := EnterEffects(navigatables)[k].target;
              CanNavigateToSource(t) && !(t.TreeNodeTarget? && t.value.UsageValue?)
    ensures forall k | 0 <= k < |EnterEffects(navigatables)| && EnterEffects(navigatables)[k].Highlight? ::
              k > 0 && EnterEffects(navigatables)[k - 1] == Navigate(UsageTarget(EnterEffects(navigatables)[k].usage))
    decreases |navigatables|
  {
    if navigatables != [] {
      var init := navigatables[..|navigatables| - 1];
      EnterEffectsWellFormed(init);
      var before := EnterEffects(init);
      var added := EffectsOf(navigatables[|navigatables| - 1]);
      var all := EnterEffects(navigatables);
      assert all == before + added;
      forall k | |before| <= k < |all|
        ensures all[k].Navigate? ==> CanNavigateToSource(all[k].target) &&
                                     !(all[k].target.TreeNodeTarget? && all[k].target.value.UsageValue?)
        ensures all[k].Highlight? ==> k > 0 && all[k - 1] == Navigate(UsageTarget(all[k].usage))
      {
        assert all[k] == added[k - |before|];
        if all[k].Highlight? {
          assert k - |before| == 1;
          assert all[k - 1] == added[0];
        }
      }
    }
  }
}
