/** The record-by-record scans over one directory block. */
module Ext2DirScan {
  import opened Bytes
  import opened Ext2DirBlocks

  datatype Scan<T> = Hit(value: T) | Miss | Malformed

  ghost predicate BlockOk(b: Block) {
    Tiles(b, 0) && Unique(b, 0)
  }

  function NamesOf(b: Block): map<Name, Rec> {
    if Tiles(b, 0) then Names(b, 0) else map[]
  }

  /** names_equal; bytes behind the block are not part of this model, so a name that would run over its end is
      no match. */
  predicate NamesEqual(b: Block, p: nat, name: Name)
    requires p + NAME_OFFSET <= |b|
  {
    && NameLen(b, p) == |name| && p + NAME_OFFSET + |name| <= |b|
    && b[p + NAME_OFFSET..p + NAME_OFFSET + |name|] == name
  }

  /** Where a walk over a well-formed block stands. */
  ghost predicate At(b: Block, p: nat) {
    BlockOk(b) ==> Reaches(b, 0, p) && Tiles(b, p) && Unique(b, p)
  }

  lemma Step(b: Block, p: nat)
    requires At(b, p) && p + NAME_OFFSET <= |b| && LenOk(b, p)
    ensures At(b, p + RecLen(b, p))
    ensures BlockOk(b) ==> RecOk(b, p) && LastLive(b, 0, p + RecLen(b, p)) == if RecIno(b, p) != 0 then p else LastLive(b, 0, p)
  {
    if BlockOk(b) {
      LastLiveStep(b, 0, p);
    }
  }

  /** Nothing has been missed so far. */
  ghost predicate Missed(b: Block, p: nat, name: Name) {
    BlockOk(b) && At(b, p) ==> (name in Names(b, 0) <==> name in Names(b, p))
  }

  lemma Matches(b: Block, p: nat, name: Name)
    requires BlockOk(b) && At(b, p) && p + NAME_OFFSET <= |b|
    ensures RecOk(b, p)
    ensures RecIno(b, p) != 0 && NamesEqual(b, p, name) <==> RecIno(b, p) != 0 && RecName(b, p) == name
    ensures RecIno(b, p) != 0 && NamesEqual(b, p, name) ==> name in Names(b, 0) && Names(b, 0)[name].ino == RecIno(b, p)
  {
    ReachesTiles(b, 0, p);
  }

  /** find_in_dir over one block. */
  method FindInBlock(b: Block, name: Name) returns (r: Scan<nat>)
    ensures BlockOk(b) ==> r == if name in Names(b, 0) then Hit(Names(b, 0)[name].ino) else Miss
  {
    hide RecLen, RecIno, NameLen, NamesEqual, LenOk, RecOk, RecName, LastLive;
    var p := 0;
    while p + NAME_OFFSET <= |b|
      invariant At(b, p) && Missed(b, p, name)
      decreases |b| - p
    {
      if !(8 <= RecLen(b, p) && p + RecLen(b, p) <= |b|) {
        NotOk(b, p);
        return Malformed;
      }
      LenIsOk(b, p);
      Step(b, p);
      if BlockOk(b) { Matches(b, p, name); }
      if RecIno(b, p) != 0 && NamesEqual(b, p, name) {
        return Hit(RecIno(b, p));
      }
      p := p + RecLen(b, p);
    }
    if BlockOk(b) { AtEnd(b, p); }
    return Miss;
  }

  lemma AtEnd(b: Block, p: nat)
    requires BlockOk(b) && At(b, p) && p + NAME_OFFSET > |b|
    ensures p == |b|
  {
  }

  lemma NotOk(b: Block, p: nat)
    requires At(b, p) && p + NAME_OFFSET <= |b| && !(8 <= RecLen(b, p) && p + RecLen(b, p) <= |b|)
    ensures !BlockOk(b)
  {
  }

  lemma LenIsOk(b: Block, p: nat)
    requires p + NAME_OFFSET <= |b| && 8 <= RecLen(b, p) && p + RecLen(b, p) <= |b|
    ensures LenOk(b, p)
  {
  }

  predicate IsDot(name: Name) { name == ['.' as int] }

  predicate IsDotDot(name: Name) { name == ['.' as int, '.' as int] }

  /** dir_is_empty over one block. */
  method BlockIsEmpty(b: Block) returns (r: Scan<bool>)
    ensures BlockOk(b) ==> r == Hit(forall x :: x in Names(b, 0) ==> IsDot(x) || IsDotDot(x))
  {
    hide RecLen, RecIno, NameLen, NamesEqual, LenOk, RecOk, RecName, LastLive;
    var p := 0;
    while p + NAME_OFFSET <= |b|
      invariant At(b, p)
      invariant BlockOk(b) ==> forall x :: x in Names(b, 0) && x !in Names(b, p) ==> IsDot(x) || IsDotDot(x)
      decreases |b| - p
    {
      if !(8 <= RecLen(b, p) && p + RecLen(b, p) <= |b|) {
        NotOk(b, p);
        return Malformed;
      }
      LenIsOk(b, p);
      Step(b, p);
      if BlockOk(b) {
        Matches(b, p, ['.' as int]);
        Matches(b, p, ['.' as int, '.' as int]);
      }
      if RecIno(b, p) != 0 && !NamesEqual(b, p, ['.' as int]) && !NamesEqual(b, p, ['.' as int, '.' as int]) {
        ReachesTilesOk(b, p);
        return Hit(false);
      }
      p := p + RecLen(b, p);
    }
    if BlockOk(b) { AtEnd(b, p); }
    return Hit(true);
  }

  lemma ReachesTilesOk(b: Block, p: nat)
    requires At(b, p) && p + NAME_OFFSET <= |b| && LenOk(b, p) && RecIno(b, p) != 0
    ensures BlockOk(b) ==> RecOk(b, p) && RecName(b, p) in Names(b, 0)
  {
    if BlockOk(b) {
      ReachesTiles(b, 0, p);
    }
  }

  /** No record from `p` on has room for a name of this length. */
  ghost predicate Full(b: Block, p: nat, nameLen: nat)
    requires Tiles(b, p)
    decreases |b| - p
  {
    p < |b| ==>
      && RecLen(b, p) < (if RecIno(b, p) != 0 then MinLen(NameLen(b, p)) else 8) + MinLen(nameLen)
      && Full(b, p + RecLen(b, p), nameLen)
  }

  /** A live first record keeps its place, its inode and its name. */
  ghost predicate SameHead(b: Block, b': Block) {
    RecOk(b, 0) && RecIno(b, 0) != 0 ==> RecOk(b', 0) && RecIno(b', 0) != 0 && RecName(b', 0) == RecName(b, 0)
  }

  lemma HeadBefore(b: Block, b': Block, p: nat)
    requires Reaches(b, 0, p) && 0 < p && |b'| == |b| && forall k :: 0 <= k < p && k < |b| ==> b'[k] == b[k]
    ensures SameHead(b, b')
  {
    SameRecord(b, b', 0, p);
  }

  ghost predicate Added(b: Block, b': Block, name: Name, entry: Rec) {
    && BlockOk(b) && |b'| == |b| && BlockOk(b') && Names(b', 0) == Names(b, 0)[name := entry]
    && (AllLive(b, 0) ==> AllLive(b', 0)) && SameHead(b, b')
  }

  /** add_dir_entry over one block: first fit, splitting a live record or reusing a dead one. */
  method AddToBlock(b: Block, ino: nat, name: Name, fileType: byte) returns (r: Scan<Block>)
    requires 0 < |name| <= MAX_NAME && 0 < ino < TWO_32 && |b| < TWO_16
    ensures r.Hit? ==> |r.value| == |b|
    ensures BlockOk(b) ==> !r.Malformed?
    ensures BlockOk(b) && name !in Names(b, 0) && r.Hit? ==> Added(b, r.value, name, Rec(ino, fileType))
    ensures BlockOk(b) ==> (r.Miss? <==> Full(b, 0, |name|))
  {
    hide LastLive, PutEntry, SplitRecord;
    var needed := MinLen(|name|);
    var p := 0;
    while p + NAME_OFFSET <= |b|
      invariant At(b, p)
      invariant BlockOk(b) ==> (Full(b, 0, |name|) <==> Full(b, p, |name|))
      decreases |b| - p
    {
      if !LenOk(b, p) {
        return Malformed;
      }
      Step(b, p);
      var actual := if RecIno(b, p) != 0 then MinLen(NameLen(b, p)) else 8;
      if RecLen(b, p) >= actual + needed {
        if BlockOk(b) && name !in Names(b, 0) {
          AddHere(b, p, ino, name, fileType);
        }
        return Hit(if RecIno(b, p) != 0 then SplitRaw(b, p, ino, name, fileType) else PutEntry(b, p, ino, name, fileType));
      }
      p := p + RecLen(b, p);
    }
    return Miss;
  }

  /** The stores add_dir_entry makes to split the record at `p`, well-formed or not. */
  function SplitRaw(b: Block, p: nat, ino: nat, name: Name, fileType: byte): (r: Block)
    requires p + NAME_OFFSET <= |b| && LenOk(b, p) && |name| <= MAX_NAME && 0 < ino < TWO_32
    requires RecLen(b, p) >= MinLen(NameLen(b, p)) + MinLen(|name|)
    ensures |r| == |b|
    ensures RecOk(b, p) ==> r == SplitRecord(b, p, ino, name, fileType)
  {
    PutEntry(CutRaw(b, p, MinLen(NameLen(b, p))), p + MinLen(NameLen(b, p)), ino, name, fileType)
  }

  function CutRaw(b: Block, p: nat, len: nat): (r: Block)
    requires p + NAME_OFFSET <= |b| && LenOk(b, p) && NAME_OFFSET <= len && len + NAME_OFFSET <= RecLen(b, p)
    ensures |r| == |b|
    ensures RecOk(b, p) ==> r == Cut(b, p, len)
  {
    Write16(Write16(b, p + 4, len), p + len + 4, RecLen(b, p) - len)
  }

  lemma AddHere(b: Block, p: nat, ino: nat, name: Name, fileType: byte)
    requires BlockOk(b) && At(b, p) && RecOk(b, p) && name !in Names(b, 0)
    requires |name| <= MAX_NAME && 0 < ino < TWO_32
    requires RecLen(b, p) >= (if RecIno(b, p) != 0 then MinLen(NameLen(b, p)) else 8) + MinLen(|name|)
    ensures RecIno(b, p) != 0 ==> Added(b, SplitRecord(b, p, ino, name, fileType), name, Rec(ino, fileType))
    ensures RecIno(b, p) == 0 ==> Added(b, PutEntry(b, p, ino, name, fileType), name, Rec(ino, fileType))
  {
    ReachesTiles(b, 0, p);
    hide SplitRecord, PutEntry, MinLen;
    if RecIno(b, p) != 0 {
      SplitRecordAdds(b, p, ino, name, fileType);
      SplitRecordShape(b, p, ino, name, fileType);
      if p > 0 { HeadBefore(b, SplitRecord(b, p, ino, name, fileType), p); }
      TailAdd(b, SplitRecord(b, p, ino, name, fileType), 0, p, name, Rec(ino, fileType));
    } else {
      ReuseAdds(b, p, ino, name, fileType);
      if p > 0 { HeadBefore(b, PutEntry(b, p, ino, name, fileType), p); }
      TailAdd(b, PutEntry(b, p, ino, name, fileType), 0, p, name, Rec(ino, fileType));
    }
  }

  ghost predicate Removed(b: Block, b': Block, name: Name) {
    BlockOk(b) && |b'| == |b| && BlockOk(b') && Names(b', 0) == Names(b, 0) - {name}
  }

  /** The record that holds `name`, when walking from `p`; the end of the block if there is none. */
  function PositionOf(b: Block, p: nat, name: Name): nat
    requires Tiles(b, p)
    decreases |b| - p
  {
    if p == |b| || (RecIno(b, p) != 0 && RecName(b, p) == name) then p
    else PositionOf(b, p + RecLen(b, p), name)
  }

  lemma {:induction false} PositionReached(b: Block, p: nat, name: Name)
    requires Tiles(b, p)
    ensures p <= PositionOf(b, p, name) && Reaches(b, p, PositionOf(b, p, name))
    ensures name in Names(b, p) <==> PositionOf(b, p, name) < |b|
    decreases |b| - p
  {
    if p < |b| {
      PositionReached(b, p + RecLen(b, p), name);
    }
  }

  /** Removing `name` works as intended: its record may be removed (see Removable). */
  ghost predicate SafeToRemove(b: Block, name: Name)
    requires BlockOk(b)
  {
    PositionReached(b, 0, name);
    Removable(b, PositionOf(b, 0, name))
  }

  /** remove_dir_entry over one block; yields the removed inode number and the new block. */
  method RemoveFromBlock(b: Block, name: Name) returns (r: Scan<(nat, Block)>)
    requires |b| < TWO_16
    ensures r.Hit? ==> |r.value.1| == |b|
    ensures BlockOk(b) ==> (r.Hit? <==> name in Names(b, 0)) && !r.Malformed?
    ensures BlockOk(b) && r.Hit? ==> r.value.0 == Names(b, 0)[name].ino
    ensures BlockOk(b) && r.Hit? && SafeToRemove(b, name) ==> Removed(b, r.value.1, name)
    ensures BlockOk(b) && r.Hit? && SafeToRemove(b, name) && 0 < PositionOf(b, 0, name) ==>
              SameHead(b, r.value.1) && (AllLive(b, 0) ==> AllLive(r.value.1, 0))
  {
    hide RecIno, NameLen, NamesEqual, RecName, Removable, MergeRaw, Merge, Removed, SameHead, AllLive;
    var p, previous := 0, -1;
    while p + NAME_OFFSET <= |b|
      invariant At(b, p) && Missed(b, p, name)
      invariant -1 <= previous && (previous >= 0 ==> previous + NAME_OFFSET <= |b|)
      invariant BlockOk(b) ==> previous == LastLive(b, 0, p) && PositionOf(b, 0, name) == PositionOf(b, p, name)
      decreases |b| - p
    {
      if !LenOk(b, p) {
        return Malformed;
      }
      Step(b, p);
      if BlockOk(b) { Matches(b, p, name); }
      if RecIno(b, p) != 0 && NamesEqual(b, p, name) {
        if BlockOk(b) && SafeToRemove(b, name) {
          RemoveHere(b, p, name);
          if previous >= 0 { MergeRawIs(b, previous, p); }
        }
        return Hit((RecIno(b, p), if previous >= 0 then MergeRaw(b, previous, p) else Write32(b, p, 0)));
      }
      previous := if RecIno(b, p) != 0 then p else previous;
      p := p + RecLen(b, p);
    }
    if BlockOk(b) { AtEnd(b, p); }
    return Miss;
  }

  /** The 16-bit addition remove_dir_entry makes, well-formed or not. */
  function MergeRaw(b: Block, previous: nat, p: nat): (r: Block)
    requires previous + NAME_OFFSET <= |b| && p + NAME_OFFSET <= |b|
    ensures |r| == |b|
  {
    Write16(b, previous + 4, (RecLen(b, previous) + RecLen(b, p)) % TWO_16)
  }

  lemma MergeRawIs(b: Block, previous: nat, p: nat)
    requires RecOk(b, previous) && RecOk(b, p) && previous + RecLen(b, previous) <= p && |b| < TWO_16
    ensures MergeRaw(b, previous, p) == Merge(b, previous, p)
  {
  }

  lemma RemoveHere(b: Block, p: nat, name: Name)
    requires BlockOk(b) && At(b, p) && p < |b| < TWO_16 && RecOk(b, p) && RecIno(b, p) != 0 && RecName(b, p) == name
    requires Removable(b, p)
    ensures LastLive(b, 0, p) < 0 ==> Removed(b, Write32(b, p, 0), name)
    ensures LastLive(b, 0, p) < 0 && 0 < p ==> SameHead(b, Write32(b, p, 0)) && !AllLive(b, 0)
    ensures LastLive(b, 0, p) >= 0 ==>
              var l := LastLive(b, 0, p);
              && RecOk(b, l) && l + RecLen(b, l) == p && RecLen(b, l) + RecLen(b, p) < TWO_16
              && Removed(b, Merge(b, l, p), name) && SameHead(b, Merge(b, l, p))
              && (AllLive(b, 0) ==> AllLive(Merge(b, l, p), 0))
  {
    if AllLive(b, 0) && 0 < p {
      AllLiveRemovable(b, 0, p);
    }
    if LastLive(b, 0, p) < 0 {
      ZeroHere(b, p);
    } else {
      LastLiveReached(b, 0, p);
      MergeHere(b, LastLive(b, 0, p), p);
    }
  }

  lemma ZeroHere(b: Block, p: nat)
    requires BlockOk(b) && At(b, p) && p < |b| && RecOk(b, p) && RecIno(b, p) != 0
    ensures Removed(b, Write32(b, p, 0), RecName(b, p))
    ensures 0 < p ==> SameHead(b, Write32(b, p, 0))
  {
    hide Write32;
    assert RecName(b, p) in Names(b, p);
    ZeroRemoves(b, p);
    hide RecLen, RecIno, NameLen, RecName, SameHead;
    TailRemove(b, Write32(b, p, 0), 0, p, RecName(b, p));
    if 0 < p { HeadBefore(b, Write32(b, p, 0), p); }
  }

  lemma MergeHere(b: Block, l: nat, p: nat)
    requires BlockOk(b) && Reaches(b, 0, l) && RecOk(b, l) && RecIno(b, l) != 0 && |b| < TWO_16
    requires p == l + RecLen(b, l) && p < |b| && RecOk(b, p) && RecIno(b, p) != 0
    ensures Removed(b, Merge(b, l, p), RecName(b, p)) && SameHead(b, Merge(b, l, p))
    ensures AllLive(b, 0) ==> AllLive(Merge(b, l, p), 0)
  {
    ReachesTiles(b, 0, l);
    NextName(b, l);
    MergeRemoves(b, l, p);
    MergeShape(b, l, p);
    if 0 < l {
      HeadBefore(b, Merge(b, l, p), l);
    }
    hide Merge, RecLen, RecIno, NameLen, RecName, RecOk;
    TailRemove(b, Merge(b, l, p), 0, l, RecName(b, p));
  }

  lemma NextName(b: Block, l: nat)
    requires Tiles(b, l) && l < |b| && RecIno(b, l) != 0 && Unique(b, l) && l + RecLen(b, l) < |b|
    requires RecOk(b, l + RecLen(b, l)) && RecIno(b, l + RecLen(b, l)) != 0
    ensures RecName(b, l + RecLen(b, l)) in Names(b, l)
  {
    var p := l + RecLen(b, l);
    assert RecName(b, p) in Names(b, p);
  }
}
