/** The priority resolution table: the position of the lowest set bit of a byte. */
module ResolutionTable {
  import opened PrioritySets

  /** Row r holds the entries for the bytes 16r to 16r + 15. */
  const UN_MAP_TBL: seq<seq<nat>> := [
    [0, 0, 1, 0, 2, 0, 1, 0, 3, 0, 1, 0, 2, 0, 1, 0],
    [4, 0, 1, 0, 2, 0, 1, 0, 3, 0, 1, 0, 2, 0, 1, 0],
    [5, 0, 1, 0, 2, 0, 1, 0, 3, 0, 1, 0, 2, 0, 1, 0],
    [4, 0, 1, 0, 2, 0, 1, 0, 3, 0, 1, 0, 2, 0, 1, 0],
    [6, 0, 1, 0, 2, 0, 1, 0, 3, 0, 1, 0, 2, 0, 1, 0],
    [4, 0, 1, 0, 2, 0, 1, 0, 3, 0, 1, 0, 2, 0, 1, 0],
    [5, 0, 1, 0, 2, 0, 1, 0, 3, 0, 1, 0, 2, 0, 1, 0],
    [4, 0, 1, 0, 2, 0, 1, 0, 3, 0, 1, 0, 2, 0, 1, 0],
    [7, 0, 1, 0, 2, 0, 1, 0, 3, 0, 1, 0, 2, 0, 1, 0],
    [4, 0, 1, 0, 2, 0, 1, 0, 3, 0, 1, 0, 2, 0, 1, 0],
    [5, 0, 1, 0, 2, 0, 1, 0, 3, 0, 1, 0, 2, 0, 1, 0],
    [4, 0, 1, 0, 2, 0, 1, 0, 3, 0, 1, 0, 2, 0, 1, 0],
    [6, 0, 1, 0, 2, 0, 1, 0, 3, 0, 1, 0, 2, 0, 1, 0],
    [4, 0, 1, 0, 2, 0, 1, 0, 3, 0, 1, 0, 2, 0, 1, 0],
    [5, 0, 1, 0, 2, 0, 1, 0, 3, 0, 1, 0, 2, 0, 1, 0],
    [4, 0, 1, 0, 2, 0, 1, 0, 3, 0, 1, 0, 2, 0, 1, 0]
  ]

  function UnMap(b: bv8): nat {
    UN_MAP_TBL[(b >> 4) as nat][(b & 0xF) as nat]
  }

  function Mask(k: nat): bv8
    requires k < 8
  {
    1 << k
  }

  predicate Has(b: bv8, k: nat)
    requires k < 8
  {
    b & Mask(k) != 0
  }

  /** The positions of the set bits of a byte. */
  ghost function Bits(b: bv8): set<nat> {
    set k: nat | k < 8 && Has(b, k)
  }

  lemma MaskValues(k: nat)
    requires k < 8
    ensures Mask(k) == match k
            case 0 => 1 case 1 => 2 case 2 => 4 case 3 => 8
            case 4 => 16 case 5 => 32 case 6 => 64 case _ => 128
  {
  }

  lemma OrBit(b: bv8, j: nat, k: nat)
    requires j < 8 && k < 8
    ensures Has(b | Mask(j), k) <==> Has(b, k) || j == k
  {
    MaskValues(j);
    MaskValues(k);
  }

  lemma AndNotBit(b: bv8, j: nat, k: nat)
    requires j < 8 && k < 8
    ensures Has(b & !Mask(j), k) <==> Has(b, k) && j != k
  {
    MaskValues(j);
    MaskValues(k);
  }

  lemma BitsOr(b: bv8, j: nat)
    requires j < 8
    ensures Bits(b | Mask(j)) == Bits(b) + {j}
  {
    forall k: nat | k < 8 ensures Has(b | Mask(j), k) <==> Has(b, k) || j == k {
      OrBit(b, j, k);
    }
  }

  lemma BitsAndNot(b: bv8, j: nat)
    requires j < 8
    ensures Bits(b & !Mask(j)) == Bits(b) - {j}
  {
    forall k: nat | k < 8 ensures Has(b & !Mask(j), k) <==> Has(b, k) && j != k {
      AndNotBit(b, j, k);
    }
  }

  lemma AllMasks()
    ensures Mask(0) == 1 && Mask(1) == 2 && Mask(2) == 4 && Mask(3) == 8
    ensures Mask(4) == 16 && Mask(5) == 32 && Mask(6) == 64 && Mask(7) == 128
  {
  }

  lemma BitsEmpty(b: bv8)
    ensures Bits(b) == {} <==> b == 0
  {
    if b == 0 {
      forall k: nat | k < 8 ensures !Has(b, k) {
        MaskValues(k);
      }
    } else {
      AllMasks();
      assert Has(b, 0) || Has(b, 1) || Has(b, 2) || Has(b, 3) || Has(b, 4) || Has(b, 5) || Has(b, 6) || Has(b, 7);
      var k: nat :| k < 8 && Has(b, k);
      assert k in Bits(b);
    }
  }

  /** Every entry of the table for a non-zero byte is the position of its lowest set bit. */
  lemma UnMapIsLowest(b: bv8)
    requires b != 0
    ensures Bits(b) != {} && UnMap(b) == Min(Bits(b))
  {
    BitsEmpty(b);
    var m := UnMap(b);
    assert b == ((b >> 4) << 4) | (b & 0xF);
    AllMasks();
    assert m < 8 && Has(b, m);
    forall k | k in Bits(b) ensures m <= k {
      UnMapBelow(b, k);
    }
    MinUnique(Bits(b), m);
  }

  lemma UnMapBelow(b: bv8, k: nat)
    requires k < 8 && Has(b, k)
    ensures UnMap(b) <= k
  {
    assert b == ((b >> 4) << 4) | (b & 0xF);
    MaskValues(k);
  }
}

/** Priority sets of up to 64 members: byte-wide rows, as compiled for a lowest priority of at most 63. */
module ByteBitmaps {
  import opened PrioritySets
  import opened TwoLevelSets
  import opened ResolutionTable

  ghost function Rows(tbl: seq<bv8>): seq<set<nat>> {
    seq(|tbl|, y requires 0 <= y < |tbl| => Bits(tbl[y]))
  }

  ghost predicate Represents(grp: bv8, tbl: seq<bv8>, members: set<nat>) {
    |tbl| <= 8 && Encodes(8, Bits(grp), Rows(tbl), members)
  }

  lemma RowsUpdate(tbl: seq<bv8>, y: nat, b: bv8)
    requires y < |tbl|
    ensures Rows(tbl[y := b]) == Rows(tbl)[y := Bits(b)]
  {
  }

  lemma InsertAt(grp: bv8, tbl: seq<bv8>, members: set<nat>, y: nat, x: nat)
    requires Represents(grp, tbl, members) && y < |tbl| && x < 8
    ensures Represents(grp | Mask(y), tbl[y := tbl[y] | Mask(x)], members + {Place(8, y, x)})
  {
    BitsOr(grp, y);
    BitsOr(tbl[y], x);
    RowsUpdate(tbl, y, tbl[y] | Mask(x));
    InsertEncodes(8, Bits(grp), Rows(tbl), members, y, x);
  }

  lemma RemoveAt(grp: bv8, tbl: seq<bv8>, members: set<nat>, y: nat, x: nat)
    requires Represents(grp, tbl, members) && y < |tbl| && x < 8
    ensures var row := tbl[y] & !Mask(x);
            Represents(if row == 0 then grp & !Mask(y) else grp, tbl[y := row], members - {Place(8, y, x)})
  {
    BitsAndNot(grp, y);
    BitsAndNot(tbl[y], x);
    BitsEmpty(tbl[y] & !Mask(x));
    RowsUpdate(tbl, y, tbl[y] & !Mask(x));
    RemoveEncodes(8, Bits(grp), Rows(tbl), members, y, x);
  }

  /** `grp |= 1 << y; tbl[y] |= 1 << x` inserts priority 8y + x. */
  lemma Insert(grp: bv8, tbl: seq<bv8>, members: set<nat>, p: nat)
    requires Represents(grp, tbl, members) && p / 8 < |tbl|
    ensures Represents(grp | Mask(p / 8), tbl[p / 8 := tbl[p / 8] | Mask(p % 8)], members + {p})
  {
    PlaceSplit(8, p);
    InsertAt(grp, tbl, members, p / 8, p % 8);
  }

  /** `tbl[y] &= ~(1 << x); if (tbl[y] == 0) grp &= ~(1 << y)` removes priority 8y + x. */
  lemma Remove(grp: bv8, tbl: seq<bv8>, members: set<nat>, p: nat)
    requires Represents(grp, tbl, members) && p / 8 < |tbl|
    ensures var row := tbl[p / 8] & !Mask(p % 8);
            Represents(if row == 0 then grp & !Mask(p / 8) else grp, tbl[p / 8 := row], members - {p})
  {
    PlaceSplit(8, p);
    RemoveAt(grp, tbl, members, p / 8, p % 8);
  }

  /** The two updates that put a task on a list, through its cached row and masks. */
  method SetMember(grp: bv8, tbl: seq<bv8>, y: nat, bitX: bv8, bitY: bv8, ghost members: set<nat>, ghost p: nat)
    returns (grp': bv8, tbl': seq<bv8>)
    requires Represents(grp, tbl, members) && p / 8 < |tbl|
    requires y == p / 8 && bitX == Mask(p % 8) && bitY == Mask(p / 8)
    ensures Represents(grp', tbl', members + {p}) && |tbl'| == |tbl|
  {
    Insert(grp, tbl, members, p);
    hide Represents;
    grp' := grp | bitY;
    tbl' := tbl[y := tbl[y] | bitX];
  }

  /** The two updates that take a task off a list; the group bit goes only with the last task of the row. */
  method ClearMember(grp: bv8, tbl: seq<bv8>, y: nat, bitX: bv8, bitY: bv8, ghost members: set<nat>, ghost p: nat)
    returns (grp': bv8, tbl': seq<bv8>)
    requires Represents(grp, tbl, members) && p / 8 < |tbl|
    requires y == p / 8 && bitX == Mask(p % 8) && bitY == Mask(p / 8)
    ensures Represents(grp', tbl', members - {p}) && |tbl'| == |tbl|
  {
    Remove(grp, tbl, members, p);
    hide Represents;
    grp' := grp;
    tbl' := tbl[y := tbl[y] & !bitX];
    if tbl'[y] == 0 {
      grp' := grp & !bitY;
    }
  }

  /** The table lookup on the group, then on the selected row, yields the minimum of the set. */
  lemma Lookup(grp: bv8, tbl: seq<bv8>, members: set<nat>)
    requires Represents(grp, tbl, members) && members != {}
    ensures UnMap(grp) < |tbl|
    ensures UnMap(tbl[UnMap(grp)]) < 8
    ensures UnMap(grp) * 8 + UnMap(tbl[UnMap(grp)]) == Min(members)
  {
    LeastOfLeast(8, Bits(grp), Rows(tbl), members);
    BitsEmpty(grp);
    UnMapIsLowest(grp);
    BitsEmpty(tbl[UnMap(grp)]);
    UnMapIsLowest(tbl[UnMap(grp)]);
  }

  /** The group byte alone decides emptiness. */
  lemma GroupDecidesEmptiness(grp: bv8, tbl: seq<bv8>, members: set<nat>)
    requires Represents(grp, tbl, members)
    ensures grp == 0 <==> members == {}
  {
    BitsEmpty(grp);
    if members != {} {
      LeastOfLeast(8, Bits(grp), Rows(tbl), members);
    }
    if grp != 0 {
      var y :| y in Bits(grp);
      var x :| x in Rows(tbl)[y];
      assert Place(8, y, x) in members;
    }
  }

  lemma ZeroRepresentsEmpty(tbl: seq<bv8>)
    requires |tbl| <= 8 && forall y :: 0 <= y < |tbl| ==> tbl[y] == 0
    ensures Represents(0, tbl, {})
  {
    BitsEmpty(0);
  }
}

/** Priority sets of up to 256 members: 16-bit rows, the layout for a lowest priority above 63. */
module HalfwordBitmaps {
  import opened PrioritySets
  import opened TwoLevelSets
  import Byte = ResolutionTable

  function Mask(k: nat): bv16
    requires k < 16
  {
    1 << k
  }

  predicate Has(h: bv16, k: nat)
    requires k < 16
  {
    h & Mask(k) != 0
  }

  ghost function Bits(h: bv16): set<nat> {
    set k: nat | k < 16 && Has(h, k)
  }

  function Low(h: bv16): bv8 { (h & 0xFF) as bv8 }

  function High(h: bv16): bv8 { ((h >> 8) & 0xFF) as bv8 }

  /** The low byte if it is non-zero, else the high byte. */
  function Resolve(h: bv16): nat {
    if h & 0xFF != 0 then Byte.UnMap(Low(h)) else Byte.UnMap(High(h)) + 8
  }

  lemma MaskValues(k: nat)
    requires k < 16
    ensures Mask(k) == match k
            case 0 => 1 case 1 => 2 case 2 => 4 case 3 => 8
            case 4 => 16 case 5 => 32 case 6 => 64 case 7 => 128
            case 8 => 0x100 case 9 => 0x200 case 10 => 0x400 case 11 => 0x800
            case 12 => 0x1000 case 13 => 0x2000 case 14 => 0x4000 case _ => 0x8000
  {
  }

  lemma OrBit(h: bv16, j: nat, k: nat)
    requires j < 16 && k < 16
    ensures Has(h | Mask(j), k) <==> Has(h, k) || j == k
  {
    MaskValues(j);
    MaskValues(k);
  }

  lemma AndNotBit(h: bv16, j: nat, k: nat)
    requires j < 16 && k < 16
    ensures Has(h & !Mask(j), k) <==> Has(h, k) && j != k
  {
    MaskValues(j);
    MaskValues(k);
  }

  lemma BitsOr(h: bv16, j: nat)
    requires j < 16
    ensures Bits(h | Mask(j)) == Bits(h) + {j}
  {
    forall k: nat | k < 16 ensures Has(h | Mask(j), k) <==> Has(h, k) || j == k {
      OrBit(h, j, k);
    }
  }

  lemma BitsAndNot(h: bv16, j: nat)
    requires j < 16
    ensures Bits(h & !Mask(j)) == Bits(h) - {j}
  {
    forall k: nat | k < 16 ensures Has(h & !Mask(j), k) <==> Has(h, k) && j != k {
      AndNotBit(h, j, k);
    }
  }

  /** A halfword's bits are its low byte's bits and its high byte's bits moved up by eight. */
  lemma BitOfByte(h: bv16, k: nat)
    requires k < 16
    ensures Has(h, k) <==> if k < 8 then Byte.Has(Low(h), k) else Byte.Has(High(h), k - 8)
  {
    MaskValues(k);
    Byte.MaskValues(k % 8);
  }

  lemma BitsByBytes(h: bv16)
    ensures forall k: nat :: k in Bits(h) <==>
              k < 16 && if k < 8 then k in Byte.Bits(Low(h)) else k - 8 in Byte.Bits(High(h))
  {
    forall k: nat | k < 16
      ensures Has(h, k) <==> if k < 8 then Byte.Has(Low(h), k) else Byte.Has(High(h), k - 8)
    {
      BitOfByte(h, k);
    }
  }

  lemma BitsEmpty(h: bv16)
    ensures Bits(h) == {} <==> h == 0
  {
    BitsByBytes(h);
    Byte.BitsEmpty(Low(h));
    Byte.BitsEmpty(High(h));
    assert h == 0 <==> Low(h) == 0 && High(h) == 0;
    if Low(h) != 0 {
      var k :| k in Byte.Bits(Low(h));
      assert k in Bits(h);
    } else if High(h) != 0 {
      var k :| k in Byte.Bits(High(h));
      assert k + 8 in Bits(h);
    }
  }

  lemma ResolveIsLowest(h: bv16)
    requires h != 0
    ensures Bits(h) != {} && Resolve(h) == Min(Bits(h))
  {
    BitsEmpty(h);
    BitsByBytes(h);
    assert h & 0xFF != 0 <==> Low(h) != 0;
    assert h == 0 <==> Low(h) == 0 && High(h) == 0;
    Byte.BitsEmpty(Low(h));
    if Low(h) != 0 {
      Byte.UnMapIsLowest(Low(h));
    } else {
      Byte.UnMapIsLowest(High(h));
    }
    MinUnique(Bits(h), Resolve(h));
  }

  ghost function Rows(tbl: seq<bv16>): seq<set<nat>> {
    seq(|tbl|, y requires 0 <= y < |tbl| => Bits(tbl[y]))
  }

  ghost predicate Represents(grp: bv16, tbl: seq<bv16>, members: set<nat>) {
    |tbl| <= 16 && Encodes(16, Bits(grp), Rows(tbl), members)
  }

  lemma RowsUpdate(tbl: seq<bv16>, y: nat, b: bv16)
    requires y < |tbl|
    ensures Rows(tbl[y := b]) == Rows(tbl)[y := Bits(b)]
  {
  }

  lemma InsertAt(grp: bv16, tbl: seq<bv16>, members: set<nat>, y: nat, x: nat)
    requires Represents(grp, tbl, members) && y < |tbl| && x < 16
    ensures Represents(grp | Mask(y), tbl[y := tbl[y] | Mask(x)], members + {Place(16, y, x)})
  {
    hide Bits, Mask, Encodes;
    BitsOr(grp, y);
    BitsOr(tbl[y], x);
    RowsUpdate(tbl, y, tbl[y] | Mask(x));
    InsertEncodes(16, Bits(grp), Rows(tbl), members, y, x);
  }

  lemma RemoveAt(grp: bv16, tbl: seq<bv16>, members: set<nat>, y: nat, x: nat)
    requires Represents(grp, tbl, members) && y < |tbl| && x < 16
    ensures var row := tbl[y] & !Mask(x);
            Represents(if row == 0 then grp & !Mask(y) else grp, tbl[y := row], members - {Place(16, y, x)})
  {
    hide Bits, Mask, Encodes;
    BitsAndNot(grp, y);
    BitsAndNot(tbl[y], x);
    BitsEmpty(tbl[y] & !Mask(x));
    RowsUpdate(tbl, y, tbl[y] & !Mask(x));
    RemoveEncodes(16, Bits(grp), Rows(tbl), members, y, x);
  }

  lemma Insert(grp: bv16, tbl: seq<bv16>, members: set<nat>, p: nat)
    requires Represents(grp, tbl, members) && p / 16 < |tbl|
    ensures Represents(grp | Mask(p / 16), tbl[p / 16 := tbl[p / 16] | Mask(p % 16)], members + {p})
  {
    hide Represents, Mask;
    PlaceSplit(16, p);
    InsertAt(grp, tbl, members, p / 16, p % 16);
  }

  lemma Remove(grp: bv16, tbl: seq<bv16>, members: set<nat>, p: nat)
    requires Represents(grp, tbl, members) && p / 16 < |tbl|
    ensures var row := tbl[p / 16] & !Mask(p % 16);
            Represents(if row == 0 then grp & !Mask(p / 16) else grp, tbl[p / 16 := row], members - {p})
  {
    hide Represents, Mask;
    PlaceSplit(16, p);
    RemoveAt(grp, tbl, members, p / 16, p % 16);
  }

  /** The 16-bit branches of the lookup meet the same specification as the 8-bit ones. */
  lemma Lookup(grp: bv16, tbl: seq<bv16>, members: set<nat>)
    requires Represents(grp, tbl, members) && members != {}
    ensures Resolve(grp) < |tbl|
    ensures Resolve(tbl[Resolve(grp)]) < 16
    ensures Resolve(grp) * 16 + Resolve(tbl[Resolve(grp)]) == Min(members)
  {
    LeastOfLeast(16, Bits(grp), Rows(tbl), members);
    BitsEmpty(grp);
    ResolveIsLowest(grp);
    BitsEmpty(tbl[Resolve(grp)]);
    ResolveIsLowest(tbl[Resolve(grp)]);
  }
}
