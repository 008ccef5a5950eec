/**
 The module-level deep copy used by copy_board: lists and sets are rebuilt entry
 by entry, and anything else is returned as it is.
 */
module DeepCopy {

  /** The values copy meets: an atom (a string such as a grid character or any
      other object), a list, or a set. */
  datatype Value = Atom(text: string) | List(items: seq<Value>) | Set(members: set<Value>)

  /** A deep copy: a set is rebuilt from the copies of its entries and a list from
      the copies of its items, in order; the copy equals the original. */
  function Copy(v: Value): (r: Value)
    ensures r == v
  {
    match v
    case Atom(_) => v
    case Set(members) =>
      var copied := set e | e in members :: Copy(e);
      assert forall e :: e in members ==> Copy(e) == e && Copy(e) in copied;
      assert copied == members;
      Set(copied)
    case List(items) =>
      var copied := seq(|items|, k requires 0 <= k < |items| => Copy(items[k]));
      assert copied == items;
      List(copied)
  }
}
