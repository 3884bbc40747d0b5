/**
 * The list adapter's state: which rows are selected, which rows are marked
 * for the flip-back animation, and the row currently animating.
 */
module Adapter {
  import opened Wrappers
  import opened Messages
  import opened SparseBooleanArrays
  import opened MessageLists

  /**
   * The adapter's companion object. Its one field is static in the source, so
   * every adapter of the process shares it: adapters hold a reference to it.
   */
  class AdapterCompanion {
    var currentSelectedIndex: int

    constructor ()
      ensures currentSelectedIndex == -1
    {
      currentSelectedIndex := -1;
    }
  }

  class MessagesAdapter {
    /** The list the activity owns; the adapter removes rows from it. */
    const messages: MessageList
    const companion: AdapterCompanion
    /** Keys of `selectedItems`. */
    var selectedItems: seq<int>
    /** Keys of `animationItemsIndex`. */
    var animationItemsIndex: seq<int>
    var reverseAllAnimations: bool

    /** Both sparse arrays keep their keys ascending. */
    ghost predicate Valid()
      reads this
    {
      Sorted(selectedItems) && Sorted(animationItemsIndex)
    }

    constructor (messages: MessageList, companion: AdapterCompanion)
      ensures Valid()
      ensures this.messages == messages && this.companion == companion
      ensures selectedItems == [] && animationItemsIndex == [] && !reverseAllAnimations
    {
      this.messages := messages;
      this.companion := companion;
      selectedItems := [];
      animationItemsIndex := [];
      reverseAllAnimations := false;
    }

    /** `selectedItemCount`: how many rows are selected. */
    function SelectedItemCount(): (n: nat)
      reads this
      requires Valid()
      ensures n == |Elements(selectedItems)|
      ensures n == 0 <==> selectedItems == []
    {
      SortedCardinality(selectedItems);
      |selectedItems|
    }

    /** `getItemCount`: the number of rows, one per message. */
    function GetItemCount(): (n: nat)
      reads this, messages
      ensures n == |messages.items|
    {
      |messages.items|
    }

    /**
     * Select `pos` when it is not selected, deselect it when it is; the
     * animation marks follow, and `pos` becomes the row to animate.
     */
    method ToggleSelection(pos: int)
      requires Valid()
      modifies this, companion
      ensures Valid()
      ensures companion.currentSelectedIndex == pos
      ensures selectedItems == Toggle(old(selectedItems), pos)
      ensures pos in selectedItems <==> pos !in old(selectedItems)
      ensures pos in animationItemsIndex <==> pos in selectedItems
      ensures Elements(animationItemsIndex) - {pos} == Elements(old(animationItemsIndex)) - {pos}
      ensures reverseAllAnimations == old(reverseAllAnimations)
    {
      companion.currentSelectedIndex := pos;
      if Get(selectedItems, pos) {
        selectedItems := Delete(selectedItems, pos);
        animationItemsIndex := Delete(animationItemsIndex, pos);
      } else {
        selectedItems := Put(selectedItems, pos);
        animationItemsIndex := Put(animationItemsIndex, pos);
      }
    }

    /** Deselect every row and ask every marked row to flip back; the marks stay. */
    method ClearSelections()
      requires Valid()
      modifies this
      ensures Valid()
      ensures selectedItems == []
      ensures reverseAllAnimations
      ensures animationItemsIndex == old(animationItemsIndex)
    {
      reverseAllAnimations := true;
      selectedItems := [];
    }

    /** Forget the animation marks; the selection stays. */
    method ResetAnimationIndex()
      requires Valid()
      modifies this
      ensures Valid()
      ensures animationItemsIndex == [] && !reverseAllAnimations
      ensures selectedItems == old(selectedItems)
    {
      reverseAllAnimations := false;
      animationItemsIndex := [];
    }

    /** The selected positions, each once, in ascending order. */
    method GetSelectedItems() returns (items: seq<int>)
      requires Valid()
      ensures items == selectedItems
      ensures Sorted(items)
      ensures forall p :: p in items <==> p in selectedItems
      ensures |items| == SelectedItemCount()
    {
      items := [];
      var i := 0;
      while i < |selectedItems|
        invariant 0 <= i <= |selectedItems|
        invariant items == selectedItems[..i]
      {
        items := items + [selectedItems[i]];
        i := i + 1;
      }
      assert selectedItems[..i] == selectedItems;
    }

    /** No row is animating any more. */
    method ResetCurrentIndex()
      modifies companion
      ensures companion.currentSelectedIndex == -1
    {
      companion.currentSelectedIndex := -1;
    }

    /**
     * `removeData(position)`: remove that row from the shared list. An
     * out-of-range position throws before anything changes. The sparse arrays
     * are not touched.
     */
    method RemoveData(position: int) returns (outcome: Outcome)
      modifies messages, companion
      ensures outcome == if 0 <= position < |old(messages.items)| then Normal else Threw(IndexOutOfBounds)
      ensures outcome.Normal? ==> messages.items == RemoveAt(old(messages.items), position)
      ensures outcome.Normal? ==> companion.currentSelectedIndex == -1
      ensures outcome.Threw? ==> messages.items == old(messages.items)
      ensures outcome.Threw? ==> companion.currentSelectedIndex == old(companion.currentSelectedIndex)
      ensures selectedItems == old(selectedItems) && animationItemsIndex == old(animationItemsIndex)
    {
      if !(0 <= position < |messages.items|) {
        return Threw(IndexOutOfBounds);
      }
      messages.items := RemoveAt(messages.items, position);
      ResetCurrentIndex();
      outcome := Normal;
    }
  }
}
