/** lib/helper.js: its own copy of areSameArrays. */
module Helper {
  import opened Results
  import opened Documents
  import Comparator

  /** areSameArrays, written out again as in lib/helper.js. */
  function AreSameArrays(a: seq<Doc>, b: seq<Doc>): (same: bool) {
    |a| == |b| && forall i | 0 <= i < |a| :: FindById(b, a[i].id) == Some(a[i])
  }

  /**
    The copy agrees with the comparator's areSameArrays on every input: arrays of different
    lengths differ, two empty arrays are the same, and with unique ids an array is the same as
    itself.
   */
  lemma SameAsComparator(a: seq<Doc>, b: seq<Doc>)
    ensures AreSameArrays(a, b) == Comparator.AreSameArrays(a, b)
    ensures |a| != |b| ==> !AreSameArrays(a, b)
    ensures a == [] && b == [] ==> AreSameArrays(a, b)
    ensures UniqueIds(a) ==> AreSameArrays(a, a)
  {
    if UniqueIds(a) {
      Comparator.Reflexive(a);
    }
  }
}
