/**
 * The inbox activity: it owns the message list, turns row taps into list and
 * selection updates, runs the contextual action mode ("action mode") while
 * rows are selected, and installs the result of a fetch.
 */
module Activity {
  import opened Wrappers
  import opened Messages
  import opened SparseBooleanArrays
  import opened MessageLists
  import opened Adapter

  /** A running contextual action mode; `title` is unset until a count is shown. */
  datatype ActionMode = ActionMode(title: Option<int>)

  /** The items of the action-mode menu. */
  datatype MenuItem = DeleteItem | OtherItem

  class MainActivity {
    const messages: MessageList
    const adapter: MessagesAdapter
    /** `actionMode`, null when no action mode runs. */
    var actionMode: Option<ActionMode>
    /** A `resetAnimationIndex` posted to the list view that has not run yet. */
    var animationResetPosted: bool

    /** The adapter shows this activity's list and its sparse arrays are well formed. */
    ghost predicate Wired()
      reads this, adapter
    {
      adapter.messages == messages && adapter.Valid()
    }

    /**
     * Between two events: action mode runs exactly when some row is
     * selected, and its title is the number of selected rows.
     */
    ghost predicate Valid()
      reads this, adapter
    {
      && Wired()
      && (actionMode.Some? <==> adapter.selectedItems != [])
      && (actionMode.Some? ==> actionMode.value.title == Some(|adapter.selectedItems|))
    }

    /**
     * The state after toggling `position` from the selection `before`: the
     * selection toggled, its animation mark following it, the other marks as
     * they were, and action mode still running with the new count as title,
     * or finished (clearing the selection) when the count fell to zero.
     */
    ghost predicate AfterToggle(before: seq<int>, beforeMarks: seq<int>, beforeReverse: bool,
                                beforePosted: bool, position: int)
      reads this, adapter, adapter.companion
      requires Sorted(before)
    {
      && adapter.selectedItems == Toggle(before, position)
      && adapter.companion.currentSelectedIndex == position
      && (position in adapter.animationItemsIndex <==> position in adapter.selectedItems)
      && Elements(adapter.animationItemsIndex) - {position} == Elements(beforeMarks) - {position}
      && (if adapter.selectedItems == [] then
            actionMode.None? && adapter.reverseAllAnimations && animationResetPosted
          else
            && actionMode == Some(ActionMode(Some(|adapter.selectedItems|)))
            && adapter.reverseAllAnimations == beforeReverse
            && animationResetPosted == beforePosted)
    }

    /** `onCreate`, as far as the list state goes: an empty inbox wired to a new adapter. */
    constructor (companion: AdapterCompanion)
      ensures Valid()
      ensures fresh(messages) && fresh(adapter)
      ensures messages.items == [] && adapter.companion == companion
      ensures adapter.selectedItems == [] && adapter.animationItemsIndex == []
      ensures !adapter.reverseAllAnimations
      ensures actionMode.None? && !animationResetPosted
    {
      var list := new MessageList();
      messages := list;
      adapter := new MessagesAdapter(list, companion);
      actionMode := None;
      animationResetPosted := false;
    }

    /**
     * `onResponse`: the list is cleared, then refilled in order with the
     * received messages, each given the colour drawn for it. A response
     * without a body throws after the list was cleared. The selection is
     * left as it was.
     */
    method OnResponse(body: Option<seq<Message>>, colors: seq<int>) returns (outcome: Outcome)
      requires Valid()
      requires body.Some? ==> |colors| == |body.value|
      modifies messages
      ensures Valid()
      ensures outcome == if body.Some? then Normal else Threw(NullPointer)
      ensures body.None? ==> messages.items == []
      ensures body.Some? ==> |messages.items| == |body.value|
      ensures body.Some? ==>
        forall i :: 0 <= i < |body.value| ==> messages.items[i] == Colored(body.value[i], colors[i])
      ensures adapter.selectedItems == old(adapter.selectedItems) && actionMode == old(actionMode)
    {
      messages.items := [];
      if body.None? {
        return Threw(NullPointer);
      }
      var received := body.value;
      var i := 0;
      while i < |received|
        invariant 0 <= i <= |received|
        invariant |messages.items| == i
        invariant forall j :: 0 <= j < i ==> messages.items[j] == Colored(received[j], colors[j])
      {
        messages.items := messages.items + [Colored(received[i], colors[i])];
        i := i + 1;
      }
      outcome := Normal;
    }

    /** `onFailure`: the fetch failed; the list and the selection stay as they were. */
    method OnFailure()
      requires Valid()
      ensures Valid()
      ensures messages.items == old(messages.items)
      ensures adapter.selectedItems == old(adapter.selectedItems)
    {
    }

    /** `startSupportActionMode`, when none runs yet. */
    method StartActionModeIfNone()
      requires Wired()
      modifies this
      ensures Wired()
      ensures actionMode.Some?
      ensures old(actionMode).Some? ==> actionMode == old(actionMode)
      ensures animationResetPosted == old(animationResetPosted)
    {
      if actionMode.None? {
        actionMode := Some(ActionMode(None));
      }
    }

    /** `onIconClicked`: enter action mode if needed, then toggle the row. */
    method OnIconClicked(position: int)
      requires Valid()
      modifies this, adapter, adapter.companion
      ensures Valid()
      ensures AfterToggle(old(adapter.selectedItems), old(adapter.animationItemsIndex),
                          old(adapter.reverseAllAnimations), old(animationResetPosted), position)
    {
      StartActionModeIfNone();
      ToggleSelection(position);
    }

    /** `onRowLongClicked`: the same as `enableActionMode(position)`. */
    method OnRowLongClicked(position: int)
      requires Valid()
      modifies this, adapter, adapter.companion
      ensures Valid()
      ensures AfterToggle(old(adapter.selectedItems), old(adapter.animationItemsIndex),
                          old(adapter.reverseAllAnimations), old(animationResetPosted), position)
    {
      EnableActionMode(position);
    }

    /** `enableActionMode`: enter action mode if needed, then toggle the row. */
    method EnableActionMode(position: int)
      requires Valid()
      modifies this, adapter, adapter.companion
      ensures Valid()
      ensures AfterToggle(old(adapter.selectedItems), old(adapter.animationItemsIndex),
                          old(adapter.reverseAllAnimations), old(animationResetPosted), position)
    {
      StartActionModeIfNone();
      ToggleSelection(position);
    }

    /**
     * The activity's `toggleSelection`: toggle in the adapter, then finish
     * action mode when nothing is selected any more, or show the count.
     */
    method ToggleSelection(position: int)
      requires Wired() && actionMode.Some?
      modifies this, adapter, adapter.companion
      ensures Valid()
      ensures AfterToggle(old(adapter.selectedItems), old(adapter.animationItemsIndex),
                          old(adapter.reverseAllAnimations), old(animationResetPosted), position)
    {
      adapter.ToggleSelection(position);
      var count := adapter.SelectedItemCount();
      if count == 0 {
        OnDestroyActionMode();
      } else {
        actionMode := Some(actionMode.value.(title := Some(count)));
      }
    }

    /**
     * `onDestroyActionMode`, reached through `finish()` or by leaving action
     * mode with the back key: deselect everything, leave action mode, and
     * post a reset of the animation marks.
     */
    method OnDestroyActionMode()
      requires Wired()
      modifies this, adapter
      ensures Valid()
      ensures adapter.selectedItems == [] && adapter.reverseAllAnimations
      ensures adapter.animationItemsIndex == old(adapter.animationItemsIndex)
      ensures actionMode.None? && animationResetPosted
    {
      adapter.ClearSelections();
      actionMode := None;
      animationResetPosted := true;
    }

    /** The posted `resetAnimationIndex` runs on the list view. */
    method RunPostedAnimationReset()
      requires Valid() && animationResetPosted
      modifies this, adapter
      ensures Valid()
      ensures adapter.animationItemsIndex == [] && !adapter.reverseAllAnimations
      ensures adapter.selectedItems == old(adapter.selectedItems) && actionMode == old(actionMode)
      ensures !animationResetPosted
    {
      adapter.ResetAnimationIndex();
      animationResetPosted := false;
    }

    /**
     * `onIconImportantClicked`: flip the star of that row and nothing else.
     * An out-of-range position throws before anything changes.
     */
    method OnIconImportantClicked(position: int) returns (outcome: Outcome)
      requires Valid()
      modifies messages
      ensures Valid()
      ensures outcome == if 0 <= position < |old(messages.items)| then Normal else Threw(IndexOutOfBounds)
      ensures outcome.Normal? ==>
        messages.items == old(messages.items)[position := ToggledImportant(old(messages.items)[position])]
      ensures outcome.Threw? ==> messages.items == old(messages.items)
    {
      if !(0 <= position < |messages.items|) {
        return Threw(IndexOutOfBounds);
      }
      var message := messages.items[position];
      message := ToggledImportant(message);
      messages.items := messages.items[position := message];
      outcome := Normal;
    }

    /**
     * `onMessageRowClicked`: while rows are selected a tap toggles the row;
     * otherwise it marks the message read. The toast that follows dereferences
     * the body with `!!`, so a message without one throws after being marked.
     */
    method OnMessageRowClicked(position: int) returns (outcome: Outcome)
      requires Valid()
      modifies this, messages, adapter, adapter.companion
      ensures Valid()
      ensures old(adapter.selectedItems) != [] ==>
        && outcome.Normal?
        && messages.items == old(messages.items)
        && AfterToggle(old(adapter.selectedItems), old(adapter.animationItemsIndex),
                       old(adapter.reverseAllAnimations), old(animationResetPosted), position)
      ensures old(adapter.selectedItems) == [] ==>
        && adapter.selectedItems == [] && actionMode == old(actionMode)
        && adapter.animationItemsIndex == old(adapter.animationItemsIndex)
        && adapter.reverseAllAnimations == old(adapter.reverseAllAnimations)
        && adapter.companion.currentSelectedIndex == old(adapter.companion.currentSelectedIndex)
        && animationResetPosted == old(animationResetPosted)
        && outcome == (if !(0 <= position < |old(messages.items)|) then Threw(IndexOutOfBounds)
                       else if old(messages.items)[position].message.None? then Threw(NullPointer)
                       else Normal)
        && messages.items == (if 0 <= position < |old(messages.items)|
                              then old(messages.items)[position := MarkedRead(old(messages.items)[position])]
                              else old(messages.items))
    {
      if adapter.SelectedItemCount() > 0 {
        EnableActionMode(position);
        outcome := Normal;
      } else {
        if !(0 <= position < |messages.items|) {
          return Threw(IndexOutOfBounds);
        }
        var message := messages.items[position];
        message := MarkedRead(message);
        messages.items := messages.items[position := message];
        if message.message.None? {
          return Threw(NullPointer);
        }
        outcome := Normal;
      }
    }

    /**
     * `deleteMessages`: forget the animation marks, take the selected
     * positions in ascending order and remove them from the last to the
     * first, so that no removal shifts a row still waiting to be removed.
     * The list keeps exactly the unselected rows, in their order. A position
     * out of range makes `removeAt` throw.
     */
    method DeleteMessages() returns (outcome: Outcome)
      requires Valid()
      modifies messages, adapter, adapter.companion
      ensures Valid()
      ensures adapter.selectedItems == old(adapter.selectedItems)
      ensures adapter.animationItemsIndex == [] && !adapter.reverseAllAnimations
      ensures outcome ==
        if AllInRange(old(adapter.selectedItems), |old(messages.items)|) then Normal else Threw(IndexOutOfBounds)
      ensures outcome.Normal? ==>
        messages.items == Unselected(old(messages.items), Elements(old(adapter.selectedItems)))
      ensures outcome.Normal? ==> |messages.items| == |old(messages.items)| - adapter.SelectedItemCount()
      ensures outcome.Normal? && adapter.selectedItems != [] ==> adapter.companion.currentSelectedIndex == -1
      ensures adapter.selectedItems == [] ==>
        adapter.companion.currentSelectedIndex == old(adapter.companion.currentSelectedIndex)
    {
      adapter.ResetAnimationIndex();
      var positions := adapter.GetSelectedItems();
      ghost var original := messages.items;
      var i := |positions|;
      DescendingRemovalStart(original, positions);
      while i > 0
        invariant 0 <= i <= |positions|
        invariant Wired() && adapter.selectedItems == positions
        invariant adapter.animationItemsIndex == [] && !adapter.reverseAllAnimations
        invariant actionMode == old(actionMode)
        invariant |messages.items| == |original| - (|positions| - i)
        invariant messages.items == Unselected(original, Elements(positions[i..]))
        invariant forall j :: i <= j < |positions| ==> 0 <= positions[j] < |original|
        invariant i < |positions| ==> adapter.companion.currentSelectedIndex == -1
        invariant i == |positions| ==>
          adapter.companion.currentSelectedIndex == old(adapter.companion.currentSelectedIndex)
      {
        var k := positions[i - 1];
        var removed := adapter.RemoveData(k);
        if removed.Threw? {
          DescendingRemovalFails(positions, i, |original|);
          return removed;
        }
        DescendingRemovalStep(original, positions, i);
        i := i - 1;
      }
      assert positions[0..] == positions;
      outcome := Normal;
    }

    /**
     * `onActionItemClicked`: the delete item deletes the selected rows and
     * then finishes action mode, which clears the selection; any other item
     * is not handled. When the delete throws, action mode is not finished:
     * the selection and the mode stay, and `handled` carries nothing.
     */
    method OnActionItemClicked(item: MenuItem) returns (handled: bool, outcome: Outcome)
      requires Valid() && actionMode.Some?
      modifies this, messages, adapter, adapter.companion
      ensures Valid()
      ensures item.OtherItem? ==>
        && !handled && outcome.Normal?
        && messages.items == old(messages.items)
        && adapter.selectedItems == old(adapter.selectedItems) && actionMode == old(actionMode)
        && adapter.animationItemsIndex == old(adapter.animationItemsIndex)
        && adapter.reverseAllAnimations == old(adapter.reverseAllAnimations)
        && adapter.companion.currentSelectedIndex == old(adapter.companion.currentSelectedIndex)
        && animationResetPosted == old(animationResetPosted)
      ensures item.DeleteItem? ==>
        outcome == if AllInRange(old(adapter.selectedItems), |old(messages.items)|)
                   then Normal else Threw(IndexOutOfBounds)
      ensures item.DeleteItem? && outcome.Normal? ==>
        && handled
        && messages.items == Unselected(old(messages.items), Elements(old(adapter.selectedItems)))
        && adapter.selectedItems == [] && actionMode.None?
        && adapter.animationItemsIndex == [] && adapter.reverseAllAnimations && animationResetPosted
        && adapter.companion.currentSelectedIndex == -1
      ensures item.DeleteItem? && outcome.Threw? ==>
        && adapter.selectedItems == old(adapter.selectedItems) && actionMode == old(actionMode)
        && adapter.animationItemsIndex == [] && !adapter.reverseAllAnimations
        && animationResetPosted == old(animationResetPosted)
    {
      match item
      case DeleteItem =>
        outcome := DeleteMessages();
        if outcome.Threw? {
          return false, outcome;
        }
        OnDestroyActionMode();
        handled := true;
      case OtherItem =>
        handled, outcome := false, Normal;
    }
  }

  /** Before the first removal nothing has been removed. */
  lemma DescendingRemovalStart(original: seq<Message>, positions: seq<int>)
    ensures original == Unselected(original, Elements(positions[|positions|..]))
  {
    assert Elements(positions[|positions|..]) == {} by {
      assert positions[|positions|..] == [];
    }
    UnselectedNothing(original);
  }

  /**
   * One step of the reversed loop of `deleteMessages`: the rows at
   * `positions[i..]` are already gone, so removing `positions[i - 1]`, the
   * largest position left, removes the original row there.
   */
  lemma DescendingRemovalStep(original: seq<Message>, positions: seq<int>, i: int)
    requires Sorted(positions) && 0 < i <= |positions|
    requires 0 <= positions[i - 1] < |original|
    requires 0 <= positions[i - 1] < |Unselected(original, Elements(positions[i..]))|
    ensures RemoveAt(Unselected(original, Elements(positions[i..])), positions[i - 1])
            == Unselected(original, Elements(positions[i - 1..]))
  {
    var k := positions[i - 1];
    forall x | x in Elements(positions[i..]) ensures k < x {
      var j :| i <= j < |positions| && positions[j] == x;
    }
    RemoveBelowSelected(original, Elements(positions[i..]), k);
    assert positions[i - 1..] == [k] + positions[i..];
    ElementsCons(k, positions[i..]);
    assert Elements(positions[i - 1..]) == Elements(positions[i..]) + {k};
  }

  /**
   * When `removeAt(positions[i - 1])` throws on a list that has lost one row
   * per position already removed, some selected position was out of range
   * for the list the delete started from.
   */
  lemma DescendingRemovalFails(positions: seq<int>, i: int, n: int)
    requires Sorted(positions) && 0 < i <= |positions|
    requires !(0 <= positions[i - 1] < n - (|positions| - i))
    ensures !AllInRange(positions, n)
  {
    if 0 <= positions[i - 1] && i < |positions| {
      SortedGap(positions, i - 1, |positions| - 1);
    }
  }
}
