# Inbox list and selection state of GmailLikeInbox

This project models the state behind the inbox screen of the GmailLikeInbox
Android app. The screen fetches a list of messages and shows it as rows. The
user can star a row, open it (which marks it read), and select rows to
delete them together. Only the list and selection logic is modelled; the
widgets, the network and image loading are not.

The model follows the source's structure:

- `Messages` (`message.dfy`): the `Message` record with its default field
  values, and the three field updates the screen makes (flip importance,
  mark read, assign a colour).
- `SparseBooleanArrays` (`sparse_boolean_array.dfy`): the adapter keeps
  `selectedItems` and `animationItemsIndex` in Android `SparseBooleanArray`s.
  It only ever stores `true` in them, so each one is modelled by its keys
  alone, kept strictly ascending as the library keeps them. `get`, `put`,
  `delete` and `size` become functions and lemmas. The ascending order is
  what makes `getSelectedItems` sorted.
- `MessageLists` (`message_list.dfy`): the `ArrayList<Message>` that
  `MainActivity` creates and hands to the adapter. It is a class with one
  `seq` field, and both objects hold a reference to the same instance.
  This module also has `removeAt` and the reference meaning of "the
  unselected rows in their original order" (`Unselected`).
- `Adapter` (`messages_adapter.dfy`): `MessagesAdapter` as a class. Its
  static `currentSelectedIndex` lives in a companion object that adapters
  share by reference.
- `Activity` (`main_activity.dfy`): `MainActivity` as a class with the
  action-mode field and the event handlers. Its invariant `Valid()` says
  that action mode is running exactly when some row is selected, and that
  its title is then the number of selected rows. Every handler keeps it.

Kotlin exceptions are modelled as an `Outcome`, so an error path is a
result rather than a precondition:

- `IndexOutOfBounds` is what `get`, `set` and `removeAt` throw for a bad
  position.
- `NullPointer` is what `!!` throws on null.

A position is any `int`, because the source never checks one before it
reaches the list. For example, the view holder's long-click handler passes
`adapterPosition`, which can be -1.

Deleting the selected rows (`DeleteMessages`) is proved against
`Unselected`. The positions come out of `getSelectedItems` in ascending
order, and the loop removes them from the last to the first. The loop
invariant says that after removing `positions[i..]` the list equals
`Unselected(original, positions[i..])`. When every position is in range,
the list ends as exactly the unselected rows, in their order, and is
shorter by the selection size. Otherwise `removeAt` throws.
`DeleteOrderExample` works the five-row example: with positions 1 and 3
selected, ascending removal would delete the wrong row.

Three behaviours of the code that the model keeps as written:

- A successful fetch does not clear the selection. Positions selected
  before the fetch now point at rows of the new list.
  `MainActivity.OnResponse` states that the selection is unchanged.
- `onResponse` clears the list before it dereferences `response.body()!!`.
  A response without a body therefore empties the inbox and then throws.
- Opening a message marks it read before the toast dereferences
  `message.message!!`. A message without a body is marked read, and then
  the handler throws.

The fetch callback is modelled as a synchronous call. Each message's random
colour is an input (`colors`). Other inputs that come from outside the
model: the response body, the row position of each tap, and the menu item
chosen.

## Model

| member | source | states |
|---|---|---|
| Messages.NewMessage | app/src/main/java/com/rasel/myapplication/Message.kt:4-13 | a new message has id 0, no sender, subject, body, timestamp or picture, is neither important nor read, and has the colour sentinel -1 (no colour yet) |
| Messages.ToggledImportant | app/src/main/java/com/rasel/myapplication/MainActivity.kt:158-160 | the importance flag is negated and every other field is unchanged |
| Messages.MarkedRead | app/src/main/java/com/rasel/myapplication/MainActivity.kt:171-173 | the read flag is true afterwards and every other field is unchanged |
| Messages.Colored | app/src/main/java/com/rasel/myapplication/MainActivity.kt:84-87 | the message takes the given colour and every other field is unchanged |
| Messages.ToggledImportantTwice | app/src/main/java/com/rasel/myapplication/MainActivity.kt:155-162 | starring a message twice gives back the original message |
| Messages.MarkedReadIdempotent | app/src/main/java/com/rasel/myapplication/MainActivity.kt:170-173 | marking read twice is the same as once, and a message that is already read is unchanged (the flag never goes back to false) |
| SparseBooleanArrays.Get | app/src/main/java/com/rasel/myapplication/MessagesAdapter.kt:256 | `get(pos, false)` is true exactly when `pos` is a key |
| SparseBooleanArrays.Put | app/src/main/java/com/rasel/myapplication/MessagesAdapter.kt:260-261 | `put` keeps the keys ascending and adds exactly `pos`; the size grows by one only when `pos` was absent |
| SparseBooleanArrays.Delete | app/src/main/java/com/rasel/myapplication/MessagesAdapter.kt:257-258 | `delete` keeps the keys ascending and removes exactly `pos`; the size drops by one only when `pos` was present |
| SparseBooleanArrays.Toggle | app/src/main/java/com/rasel/myapplication/MessagesAdapter.kt:256-262 | `pos` is present afterwards exactly when it was absent before; no other key changes |
| SparseBooleanArrays.SortedUnique | app/src/main/java/com/rasel/myapplication/MessagesAdapter.kt:272-278 | two ascending key sequences with the same keys are equal, so `keyAt` is determined by the set of keys |
| SparseBooleanArrays.ToggleTwice | app/src/main/java/com/rasel/myapplication/MessagesAdapter.kt:254-262 | toggling the same position twice restores the original array |
| SparseBooleanArrays.SortedCardinality | app/src/main/java/com/rasel/myapplication/MessagesAdapter.kt:39-40 | `size()` equals the number of distinct positions present |
| SparseBooleanArrays.SortedGap | app/src/main/java/com/rasel/myapplication/MainActivity.kt:246-248 | ascending distinct positions i and j indices apart differ by at least j - i |
| MessageLists.MessageList.constructor | app/src/main/java/com/rasel/myapplication/MainActivity.kt:26 | the activity's list starts empty |
| MessageLists.RemoveAt | app/src/main/java/com/rasel/myapplication/MessagesAdapter.kt:281 | `removeAt(p)` makes the list one shorter; elements before `p` stay where they are and later ones move down by one |
| MessageLists.KeepAppend | app/src/main/java/com/rasel/myapplication/MainActivity.kt:244-251 | keeping the unselected rows of a concatenation is the same as keeping them in each part, the second part counted from its own start |
| MessageLists.RemoveBelowSelected | app/src/main/java/com/rasel/myapplication/MainActivity.kt:247-248 | when every position removed so far is above `k`, removing row `k` of the shrunken list is the same as also selecting `k` |
| MessageLists.DeleteOrderExample | app/src/main/java/com/rasel/myapplication/MainActivity.kt:244-251 | for rows [A,B,C,D,E] with {1,3} selected the unselected rows are [A,C,E]; removing 3 then 1 gives [A,C,E], while removing 1 then 3 gives [A,C,D], which is wrong whenever D and E differ |
| Adapter.AdapterCompanion.constructor | app/src/main/java/com/rasel/myapplication/MessagesAdapter.kt:299-304 | the static current index starts at -1 (no row animating) |
| Adapter.MessagesAdapter.constructor | app/src/main/java/com/rasel/myapplication/MessagesAdapter.kt:28-37 | the adapter shows the given list and companion; both sparse arrays start empty and no reverse animation is pending |
| Adapter.MessagesAdapter.SelectedItemCount | app/src/main/java/com/rasel/myapplication/MessagesAdapter.kt:39-40 | the count is the number of distinct selected positions, and it is zero exactly when nothing is selected |
| Adapter.MessagesAdapter.GetItemCount | app/src/main/java/com/rasel/myapplication/MessagesAdapter.kt:250-252 | the row count is the length of the message list |
| Adapter.MessagesAdapter.ToggleSelection | app/src/main/java/com/rasel/myapplication/MessagesAdapter.kt:254-264 | `pos` becomes selected exactly when it was not; its animation mark afterwards agrees with its selection; no other mark changes; `pos` becomes the current index |
| Adapter.MessagesAdapter.ClearSelections | app/src/main/java/com/rasel/myapplication/MessagesAdapter.kt:266-270 | the selection is empty and a reverse of all animations is requested; the animation marks are kept |
| Adapter.MessagesAdapter.ResetAnimationIndex | app/src/main/java/com/rasel/myapplication/MessagesAdapter.kt:197-200 | the animation marks are empty and no reverse is pending; the selection is unchanged |
| Adapter.MessagesAdapter.GetSelectedItems | app/src/main/java/com/rasel/myapplication/MessagesAdapter.kt:272-278 | the result lists every selected position exactly once, in ascending order, and its length is the selected count |
| Adapter.MessagesAdapter.ResetCurrentIndex | app/src/main/java/com/rasel/myapplication/MessagesAdapter.kt:285-287 | the current index is -1 |
| Adapter.MessagesAdapter.RemoveData | app/src/main/java/com/rasel/myapplication/MessagesAdapter.kt:280-283 | an in-range position removes exactly that row and resets the current index to -1; an out-of-range position throws and changes nothing; the selection is never touched |
| Activity.MainActivity.constructor | app/src/main/java/com/rasel/myapplication/MainActivity.kt:26-58 | the activity starts with a newly allocated empty list shared with a newly allocated adapter, nothing selected, no animation marks or pending reverse, and no action mode |
| Activity.MainActivity.OnResponse | app/src/main/java/com/rasel/myapplication/MainActivity.kt:75-92 | with a body, the list becomes the received messages in order, each with its drawn colour, and the old rows are gone; without a body, the list is empty and the call throws; the selection is unchanged either way |
| Activity.MainActivity.OnFailure | app/src/main/java/com/rasel/myapplication/MainActivity.kt:94-101 | a failed fetch leaves the list and the selection unchanged |
| Activity.MainActivity.StartActionModeIfNone | app/src/main/java/com/rasel/myapplication/MainActivity.kt:187-189 | afterwards an action mode runs, and one that was already running is kept |
| Activity.MainActivity.OnIconClicked | app/src/main/java/com/rasel/myapplication/MainActivity.kt:147-153 | the row's selection is toggled; action mode then runs with the new count as title, or has finished because nothing is selected |
| Activity.MainActivity.OnRowLongClicked | app/src/main/java/com/rasel/myapplication/MainActivity.kt:181-184 | the same toggle as `enableActionMode` |
| Activity.MainActivity.EnableActionMode | app/src/main/java/com/rasel/myapplication/MainActivity.kt:186-191 | action mode is entered if needed and the row is toggled, keeping "action mode runs exactly when something is selected" |
| Activity.MainActivity.ToggleSelection | app/src/main/java/com/rasel/myapplication/MainActivity.kt:193-203 | after toggling, a count of 0 finishes action mode (which clears the selection and posts an animation reset); otherwise action mode stays with the count as its title |
| Activity.MainActivity.OnDestroyActionMode | app/src/main/java/com/rasel/myapplication/MainActivity.kt:232-240 | the selection is empty, action mode has ended, a reverse of all animations is requested and an animation reset is posted; the marks stay until it runs |
| Activity.MainActivity.RunPostedAnimationReset | app/src/main/java/com/rasel/myapplication/MainActivity.kt:236-239 | the posted runnable empties the animation marks and leaves the selection and action mode as they are |
| Activity.MainActivity.OnIconImportantClicked | app/src/main/java/com/rasel/myapplication/MainActivity.kt:155-162 | only the importance flag of the tapped row changes, and an out-of-range position throws without changing anything |
| Activity.MainActivity.OnMessageRowClicked | app/src/main/java/com/rasel/myapplication/MainActivity.kt:164-179 | with rows selected: the tapped row's selection is toggled and no message changes; with none selected: the row is marked read and nothing else changes; the call throws for a position out of range (list unchanged) or a message without a body (already marked read) |
| Activity.MainActivity.DeleteMessages | app/src/main/java/com/rasel/myapplication/MainActivity.kt:244-251 | the animation marks are reset; when every selected position is in range, the list becomes exactly the unselected rows in their original order and shrinks by the selection size; otherwise `removeAt` throws; the selection itself is unchanged, and after a successful delete of a non-empty selection the current index is -1 |
| Activity.MainActivity.OnActionItemClicked | app/src/main/java/com/rasel/myapplication/MainActivity.kt:219-230 | delete removes the selected rows and then finishes action mode, so the selection ends empty, action mode has ended and the current index is -1; when the delete throws, action mode is not finished: the selection and the mode stay, the animation marks are empty and no new reset is posted; any other item is not handled and changes nothing |
| Activity.DescendingRemovalStep | app/src/main/java/com/rasel/myapplication/MainActivity.kt:247-248 | with the rows at the larger positions already removed, removing the next-lower selected position removes the original row there |
| Activity.DescendingRemovalFails | app/src/main/java/com/rasel/myapplication/MainActivity.kt:247-248 | if a removal in the reversed loop throws, some selected position was out of range for the list the delete started from |

## Left out

- `ApiClient.kt` and `ApiInterface.kt` (the Retrofit singleton and the HTTP interface) and the network call itself. `getInbox` is reduced to its two callbacks, `OnResponse` and `OnFailure`, called synchronously.
- The asynchronous `call.enqueue` delivery. `OnResponse` may be called at any time between events, which covers "last call wins".
- `getRandomMaterialColor`. It uses `Math.random` and resource lookup; the colour of each message is an input instead.
- Rendering. This covers `onCreateViewHolder`, `onBindViewHolder`, `applyIconAnimation` (including its calls to `resetCurrentIndex` while a row is drawn), `applyProfilePicture`, `applyImportant`, `applyReadStatus`, `resetIconYAxis`, `applyClickEvents` and `getItemId`.
- Presentation calls: `notifyItemChanged`, `notifyDataSetChanged`, toasts, the snackbar, menus, the toolbar, `invalidate`, `onPrepareActionMode`, and the swipe-refresh spinner and its enable/disable in `onCreateActionMode` and `onDestroyActionMode`.
- The action-mode title is modelled as the count. Its conversion to a string is not modelled.
- The order of `Runnable`s posted to the list view. At most one pending animation reset is tracked. Running that reset several times has the same effect as running it once.
- SparseBooleanArray lookup cost. The library looks keys up by binary search; the model looks them up linearly. Only the result is modelled.
- 32-bit `Int` widths of positions, ids and colours. The model does no arithmetic on them that could overflow.
- Activity.MainActivity.DeleteMessages: when a selected position is out of range, the list that remains after the partial removal is not specified. Only the thrown `IndexOutOfBounds` is stated.
- Activity.MainActivity.OnActionItemClicked: when the delete throws, the value of `handled` is not specified, since Kotlin returns no value in that case.
