/** The browser's key-value store as the explorer uses it: one slot per
    list, written in full after every change and read once at start-up. */
module Storage {

  /** What `localStorage.getItem` followed by `JSON.parse` yields for one
      key: nothing stored, something that cannot be read back, or a list. */
  datatype Slot<T> = Missing | Unreadable | Holds(value: seq<T>)

  /** `loadFromStorage(key) || []`: a missing or unreadable slot reads as
      the empty list. */
  function Load<T>(slot: Slot<T>): (r: seq<T>)
    ensures slot.Holds? ==> r == slot.value
    ensures |r| > 0 ==> slot.Holds?
  {
    if slot.Holds? then slot.value else []
  }

  /** `saveToStorage(key, list)`; when the write fails (`writable` false,
      as when the quota is exceeded) the failure is swallowed and the slot
      keeps what it held. */
  function Save<T>(slot: Slot<T>, list: seq<T>, writable: bool): (r: Slot<T>)
    ensures writable ==> Load(r) == list
    ensures !writable ==> r == slot
  {
    if writable then Holds(list) else slot
  }
}
