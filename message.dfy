/** The `Message` record of the inbox and the two flag updates the screen applies to it. */
module Messages {
  import opened Wrappers

  /** The value a fresh message holds in `color` before a fetch assigns one. */
  const NoColor: int := -1

  /**
   * One row of the inbox. `color` is the ARGB value of the avatar circle,
   * a 32-bit `Int` in the source; the model never does arithmetic on it.
   */
  datatype Message = Message(
    id: int,
    from: Option<string>,
    subject: Option<string>,
    message: Option<string>,
    timestamp: Option<string>,
    picture: Option<string>,
    isImportant: bool,
    isRead: bool,
    color: int)

  /** The colour differs from the default sentinel `NoColor`. */
  predicate HasColor(m: Message) {
    m.color != NoColor
  }

  /** `Message()`: the record with every field at its declared default. */
  function NewMessage(): (m: Message)
    ensures m.id == 0
    ensures m.from.None? && m.subject.None? && m.message.None?
    ensures m.timestamp.None? && m.picture.None?
    ensures !m.isImportant && !m.isRead
    ensures !HasColor(m)
  {
    Message(0, None, None, None, None, None, false, false, NoColor)
  }

  /** The star was tapped: importance flips, every other field stays. */
  function ToggledImportant(m: Message): (r: Message)
    ensures r.isImportant != m.isImportant
    ensures r.(isImportant := m.isImportant) == m
  {
    m.(isImportant := !m.isImportant)
  }

  /** The row was opened: the message is read, every other field stays. */
  function MarkedRead(m: Message): (r: Message)
    ensures r.isRead
    ensures r.(isRead := m.isRead) == m
  {
    m.(isRead := true)
  }

  /** A fetch assigned `c` as the message's avatar colour. */
  function Colored(m: Message, c: int): (r: Message)
    ensures r.color == c
    ensures r.(color := m.color) == m
  {
    m.(color := c)
  }

  /** Tapping the star twice restores the flag. */
  lemma ToggledImportantTwice(m: Message)
    ensures ToggledImportant(ToggledImportant(m)) == m
  {
  }

  /** Opening a message that is already read changes nothing; the flag never goes back to false. */
  lemma MarkedReadIdempotent(m: Message)
    ensures MarkedRead(MarkedRead(m)) == MarkedRead(m)
    ensures m.isRead ==> MarkedRead(m) == m
  {
  }
}
