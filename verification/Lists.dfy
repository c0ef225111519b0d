/** Lists as sequences. */
module Lists {

  ghost predicate NoRepeats<T>(list: seq<T>) {
    forall i, j :: 0 <= i < j < |list| ==> list[i] != list[j]
  }
}
