/**
 Priority sets held as two-level bitmaps, and the 256-entry lookup table that
 finds the highest-priority member.

 The group byte has bit y set exactly when row y is non-zero; bit x of row y
 stands for priority `width * y + x`.  A numerically smaller priority is a
 more urgent one.
 */
module PrioritySets {

  ghost predicate IsMin(s: set<nat>, m: nat) {
    m in s && forall p :: p in s ==> m <= p
  }

  /** The most urgent priority of a non-empty set. */
  ghost function Min(s: set<nat>): (m: nat)
    requires s != {}
    ensures IsMin(s, m)
  {
    var x :| x in s;
    if s == {x} then x
    else
      var y := Min(s - {x});
      assert forall p :: p in s ==> p == x || p in s - {x};
      if x < y then x else y
  }

  lemma MinUnique(s: set<nat>, m: nat)
    requires IsMin(s, m)
    ensures Min(s) == m
  {
  }
}

/** A two-level priority set, whatever the width of a row. */
module TwoLevelSets {
  import opened PrioritySets

  /** `group` and `rows` are a two-level encoding of `members`. */
  ghost predicate Encodes(width: nat, group: set<nat>, rows: seq<set<nat>>, members: set<nat>)
    requires width > 0
  {
    && (forall y :: y in group <==> 0 <= y < |rows| && rows[y] != {})
    && (forall y, x :: 0 <= y < |rows| && x in rows[y] ==> x < width)
    && (forall y: nat, x: nat {:trigger Place(width, y, x)} :: y < |rows| && x < width ==>
          (x in rows[y] <==> Place(width, y, x) in members))
    && (forall p :: p in members ==> p / width < |rows|)
  }

  function Place(width: nat, y: nat, x: nat): nat {
    width * y + x
  }

  lemma PlaceSplit(width: nat, p: nat)
    requires width > 0
    ensures p % width < width && Place(width, p / width, p % width) == p
  {
  }

  lemma {:induction false} PlaceMonotone(width: nat, y: nat, x: nat, y': nat, x': nat)
    requires x < width && y < y'
    ensures Place(width, y, x) < Place(width, y', x')
  {
    assert Place(width, y', 0) == Place(width, y' - 1, 0) + width;
    if y < y' - 1 {
      PlaceMonotone(width, y, x, y' - 1, 0);
    }
  }

  lemma PlaceInjective(width: nat, y: nat, x: nat, y': nat, x': nat)
    requires x < width && x' < width && Place(width, y, x) == Place(width, y', x')
    ensures y == y' && x == x'
  {
    if y < y' {
      PlaceMonotone(width, y, x, y', x');
    } else if y' < y {
      PlaceMonotone(width, y', x', y, x);
    }
  }

  lemma PlaceDivides(width: nat, y: nat, x: nat)
    requires x < width
    ensures Place(width, y, x) / width == y
  {
    PlaceSplit(width, Place(width, y, x));
    PlaceInjective(width, y, x, Place(width, y, x) / width, Place(width, y, x) % width);
  }

  /** Looking up the least row of the group, then the least bit of that row, finds the minimum. */
  lemma LeastOfLeast(width: nat, group: set<nat>, rows: seq<set<nat>>, members: set<nat>)
    requires width > 0 && Encodes(width, group, rows, members) && members != {}
    ensures group != {}
    ensures Min(group) < |rows| && rows[Min(group)] != {}
    ensures Place(width, Min(group), Min(rows[Min(group)])) == Min(members)
  {
    var m := Min(members);
    PlaceSplit(width, m);
    assert m % width in rows[m / width];
    var y := Min(group);
    var x := Min(rows[y]);
    forall p | p in members ensures Place(width, y, x) <= p {
      LeastBelow(width, group, rows, members, p);
    }
    assert Place(width, y, x) in members;
    MinUnique(members, Place(width, y, x));
  }

  lemma LeastBelow(width: nat, group: set<nat>, rows: seq<set<nat>>, members: set<nat>, p: nat)
    requires width > 0 && Encodes(width, group, rows, members) && p in members
    ensures group != {} && Min(group) < |rows| && rows[Min(group)] != {}
    ensures Place(width, Min(group), Min(rows[Min(group)])) <= p
  {
    PlaceSplit(width, p);
    var y, x := p / width, p % width;
    assert x in rows[y];
    assert y in group;
    if Min(group) < y {
      PlaceMonotone(width, Min(group), Min(rows[Min(group)]), y, x);
    }
  }

  lemma InsertEncodes(width: nat, group: set<nat>, rows: seq<set<nat>>, members: set<nat>, y: nat, x: nat)
    requires width > 0 && Encodes(width, group, rows, members)
    requires y < |rows| && x < width
    ensures Encodes(width, group + {y}, rows[y := rows[y] + {x}], members + {Place(width, y, x)})
  {
    forall y': nat, x': nat | x' < width && Place(width, y', x') == Place(width, y, x)
      ensures y' == y && x' == x
    {
      PlaceInjective(width, y, x, y', x');
    }
    PlaceDivides(width, y, x);
  }

  lemma RemoveEncodes(width: nat, group: set<nat>, rows: seq<set<nat>>, members: set<nat>, y: nat, x: nat)
    requires width > 0 && Encodes(width, group, rows, members)
    requires y < |rows| && x < width
    ensures var rows' := rows[y := rows[y] - {x}];
            Encodes(width, if rows'[y] == {} then group - {y} else group, rows', members - {Place(width, y, x)})
  {
    forall y': nat, x': nat | x' < width && Place(width, y', x') == Place(width, y, x)
      ensures y' == y && x' == x
    {
      PlaceInjective(width, y, x, y', x');
    }
  }
}
