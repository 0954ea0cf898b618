/** Shared value types and facts about sets. */
module Wrappers {
  datatype Option<+T> = None | Some(value: T)

  lemma NoNumber(s: set<int>)
    requires forall n :: n !in s
    ensures s == {}
  {
    assert forall n :: n in s <==> n in {};
  }

  lemma SomeNumber(s: set<int>)
    requires s != {}
    ensures exists n :: n in s
  {
    if !exists n :: n in s {
      NoNumber(s);
    }
  }
}
