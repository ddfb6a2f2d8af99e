/** Directory blocks: variable-length records in bytes, and the map from names to inode numbers and types they stand for. */
module Ext2DirBlocks {
  import opened Bytes

  type Name = Block

  /** What a live record says about its name: the inode, and its type. */
  datatype Rec = Rec(ino: nat, kind: byte)

  const NAME_OFFSET: nat := 8
  const MAX_NAME: nat := 255

  /** The least record length for a name, a multiple of four. */
  function MinLen(nameLen: nat): (len: nat)
    ensures NAME_OFFSET + nameLen <= len < NAME_OFFSET + nameLen + 4 && len % 4 == 0
  {
    (NAME_OFFSET + nameLen + 3) / 4 * 4
  }

  function RecIno(b: Block, p: nat): nat
    requires p + NAME_OFFSET <= |b|
  {
    Read32(b, p)
  }

  function RecLen(b: Block, p: nat): nat
    requires p + NAME_OFFSET <= |b|
  {
    Read16(b, p + 4)
  }

  function NameLen(b: Block, p: nat): nat
    requires p + NAME_OFFSET <= |b|
  {
    b[p + 6]
  }

  function RecEntry(b: Block, p: nat): Rec
    requires p + NAME_OFFSET <= |b|
  {
    Rec(RecIno(b, p), b[p + 7])
  }

  /** The length check every scan makes before it looks at a record. */
  predicate LenOk(b: Block, p: nat)
    requires p + NAME_OFFSET <= |b|
  {
    8 <= RecLen(b, p) && p + RecLen(b, p) <= |b|
  }

  /** The name of a live record lies inside the record. */
  predicate RecOk(b: Block, p: nat) {
    p + NAME_OFFSET <= |b| && LenOk(b, p) && (RecIno(b, p) != 0 ==> NAME_OFFSET + NameLen(b, p) <= RecLen(b, p))
  }

  function RecName(b: Block, p: nat): Name
    requires RecOk(b, p) && RecIno(b, p) != 0
  {
    b[p + NAME_OFFSET..p + NAME_OFFSET + NameLen(b, p)]
  }

  /** From `p` on, records follow one another and end exactly at the end of the block. */
  predicate Tiles(b: Block, p: nat)
    decreases |b| - p
  {
    p == |b| || (RecOk(b, p) && Tiles(b, p + RecLen(b, p)))
  }

  /** The names of the live records from `p` on; an earlier record wins. */
  function Names(b: Block, p: nat): map<Name, Rec>
    requires Tiles(b, p)
    decreases |b| - p
  {
    if p == |b| then map[]
    else if RecIno(b, p) == 0 then Names(b, p + RecLen(b, p))
    else Names(b, p + RecLen(b, p))[RecName(b, p) := RecEntry(b, p)]
  }

  /** No name occurs twice from `p` on. */
  predicate Unique(b: Block, p: nat)
    requires Tiles(b, p)
    decreases |b| - p
  {
    p == |b|
    || (Unique(b, p + RecLen(b, p)) && (RecIno(b, p) != 0 ==> RecName(b, p) !in Names(b, p + RecLen(b, p))))
  }

  /** No dead record from `p` on. */
  predicate AllLive(b: Block, p: nat)
    requires Tiles(b, p)
    decreases |b| - p
  {
    p == |b| || (RecIno(b, p) != 0 && AllLive(b, p + RecLen(b, p)))
  }

  /** `q` is the start of a record, or the end, when walking from `p`. */
  predicate Reaches(b: Block, p: nat, q: nat)
    decreases |b| - p
  {
    p == q || (p < q && RecOk(b, p) && Reaches(b, p + RecLen(b, p), q))
  }

  lemma {:induction false} ReachesStep(b: Block, p: nat, q: nat)
    requires Reaches(b, p, q) && RecOk(b, q)
    ensures Reaches(b, p, q + RecLen(b, q))
    decreases |b| - p
  {
    if p < q {
      ReachesStep(b, p + RecLen(b, p), q);
    }
  }

  lemma {:induction false} ReachesTiles(b: Block, p: nat, q: nat)
    requires Tiles(b, p) && Reaches(b, p, q)
    ensures Tiles(b, q) && p <= q <= |b|
    ensures forall x :: x in Names(b, q) ==> x in Names(b, p)
    ensures Unique(b, p) ==> Unique(b, q) && forall x :: x in Names(b, q) ==> Names(b, p)[x] == Names(b, q)[x]
    ensures AllLive(b, p) ==> AllLive(b, q)
    decreases |b| - p
  {
    if p < q {
      ReachesTiles(b, p + RecLen(b, p), q);
    }
  }

  /** What follows `p` depends only on the bytes from `p` on. */
  lemma {:induction false} SameTail(b: Block, b': Block, p: nat)
    requires Tiles(b, p) && |b'| == |b| && forall k :: p <= k < |b| ==> b'[k] == b[k]
    ensures Tiles(b', p) && Names(b', p) == Names(b, p)
    ensures Unique(b', p) == Unique(b, p) && AllLive(b', p) == AllLive(b, p)
    decreases |b| - p
  {
    if p < |b| {
      SameTail(b, b', p + RecLen(b, p));
      if RecIno(b, p) != 0 {
        assert RecName(b', p) == RecName(b, p);
      }
    }
  }

  /** A live record in front of the rest. */
  lemma FrontLive(b: Block, p: nat)
    requires RecOk(b, p) && Tiles(b, p + RecLen(b, p)) && RecIno(b, p) != 0
    ensures Tiles(b, p) && p < |b|
    ensures Names(b, p) == Names(b, p + RecLen(b, p))[RecName(b, p) := RecEntry(b, p)]
    ensures Unique(b, p) <==> Unique(b, p + RecLen(b, p)) && RecName(b, p) !in Names(b, p + RecLen(b, p))
    ensures AllLive(b, p) <==> AllLive(b, p + RecLen(b, p))
  {
  }

  /** A dead one. */
  lemma FrontDead(b: Block, p: nat)
    requires RecOk(b, p) && Tiles(b, p + RecLen(b, p)) && RecIno(b, p) == 0
    ensures Tiles(b, p) && p < |b|
    ensures Names(b, p) == Names(b, p + RecLen(b, p)) && (Unique(b, p) <==> Unique(b, p + RecLen(b, p))) && !AllLive(b, p)
  {
  }

  /** One record in front of records that gained a name. */
  lemma FrontAdd(b: Block, b': Block, p: nat, name: Name, entry: Rec)
    requires Tiles(b, p) && p < |b| && Unique(b, p) && name !in Names(b, p) && RecOk(b', p)
    requires RecLen(b', p) == RecLen(b, p) && RecEntry(b', p) == RecEntry(b, p)
    requires RecEntry(b, p).ino != 0 ==> RecIno(b, p) != 0 && RecIno(b', p) != 0 && RecName(b', p) == RecName(b, p)
    requires RecEntry(b, p).ino == 0 ==> RecIno(b, p) == 0 && RecIno(b', p) == 0
    requires p + RecLen(b, p) <= |b| == |b'| && Tiles(b', p + RecLen(b, p)) && Unique(b', p + RecLen(b, p))
    requires Names(b', p + RecLen(b, p)) == Names(b, p + RecLen(b, p))[name := entry]
    ensures Tiles(b', p) && Unique(b', p) && Names(b', p) == Names(b, p)[name := entry]
    ensures AllLive(b, p) && AllLive(b', p + RecLen(b, p)) ==> AllLive(b', p)
  {
    hide RecOk, RecName, RecLen, RecIno, RecEntry;
    RecOkFacts(b, p);
    var next := p + RecLen(b, p);
    if RecIno(b, p) == 0 {
      FrontDead(b', p);
    } else {
      FrontLive(b', p);
      PutTwice(Names(b, next), RecName(b, p), RecEntry(b, p), name, entry);
    }
  }

  /** Changing the records from `q` on so that one name is added adds that name to the whole. */
  lemma {:induction false} TailAdd(b: Block, b': Block, p: nat, q: nat, name: Name, entry: Rec)
    requires Tiles(b, p) && Reaches(b, p, q) && Unique(b, p) && name !in Names(b, p)
    requires |b'| == |b| && (forall k :: p <= k < q && k < |b| ==> b'[k] == b[k])
    requires Tiles(b', q) && Tiles(b, q) && Unique(b', q) && Names(b', q) == Names(b, q)[name := entry]
    ensures Tiles(b', p) && Unique(b', p) && Names(b', p) == Names(b, p)[name := entry]
    ensures AllLive(b, p) && AllLive(b', q) ==> AllLive(b', p)
    decreases |b| - p
  {
    if p < q {
      RecOkFacts(b, p);
      var next := p + RecLen(b, p);
      ReachesTiles(b, next, q);
      SameRecord(b, b', p, q);
      TailAdd(b, b', next, q, name, entry);
      FrontAdd(b, b', p, name, entry);
    }
  }

  /** Changing the records from `q` on so that one name goes removes that name from the whole. */
  lemma {:induction false} TailRemove(b: Block, b': Block, p: nat, q: nat, name: Name)
    requires Tiles(b, p) && Reaches(b, p, q) && Unique(b, p)
    requires |b'| == |b| && (forall k :: p <= k < q && k < |b| ==> b'[k] == b[k])
    requires Tiles(b', q) && Tiles(b, q) && Unique(b', q) && name in Names(b, q) && Names(b', q) == Names(b, q) - {name}
    ensures Tiles(b', p) && Unique(b', p) && Names(b', p) == Names(b, p) - {name}
    ensures AllLive(b, p) && AllLive(b', q) ==> AllLive(b', p)
    decreases |b| - p
  {
    if p < q {
      var next := p + RecLen(b, p);
      ReachesTiles(b, next, q);
      SameRecord(b, b', p, q);
      TailRemove(b, b', next, q, name);
      var rest := Names(b, next);
      if RecIno(b, p) != 0 {
        PutRemove(rest, RecName(b, p), RecEntry(b, p), name);
      }
    }
  }

  lemma PutRemove(m: map<Name, Rec>, x: Name, v: Rec, y: Name)
    requires x != y
    ensures m[x := v] - {y} == (m - {y})[x := v]
  {
  }

  lemma SameRecord(b: Block, b': Block, p: nat, q: nat)
    requires RecOk(b, p) && p + RecLen(b, p) <= q && |b'| == |b|
    requires forall k :: p <= k < q && k < |b| ==> b'[k] == b[k]
    ensures RecOk(b', p) && RecLen(b', p) == RecLen(b, p) && RecIno(b', p) == RecIno(b, p) && RecEntry(b', p) == RecEntry(b, p)
    ensures RecIno(b, p) != 0 ==> RecName(b', p) == RecName(b, p)
  {
  }

  // ---------- adding a record ----------

  /** Everything add_dir_entry stores into a record but its length. */
  function PutEntry(b: Block, p: nat, ino: nat, name: Name, fileType: byte): (r: Block)
    requires p + NAME_OFFSET + |name| <= |b| && |name| <= MAX_NAME && 0 < ino < TWO_32
    ensures |r| == |b| && forall k :: 0 <= k < |b| && !(p <= k < p + NAME_OFFSET + |name|) ==> r[k] == b[k]
    ensures RecIno(r, p) == ino && RecLen(r, p) == RecLen(b, p) && NameLen(r, p) == |name| && r[p + 7] == fileType
    ensures r[p + NAME_OFFSET..p + NAME_OFFSET + |name|] == name
  {
    Splice(Write32(b, p, ino)[p + 6 := |name|][p + 7 := fileType], p + NAME_OFFSET, name)
  }

  /** Cuts the record at `p` in two: `len` bytes, and the rest. */
  function Cut(b: Block, p: nat, len: nat): (r: Block)
    requires RecOk(b, p) && NAME_OFFSET <= len && len + NAME_OFFSET <= RecLen(b, p)
    ensures |r| == |b|
  {
    Write16(Write16(b, p + 4, len), p + len + 4, RecLen(b, p) - len)
  }

  lemma CutShape(b: Block, p: nat, len: nat)
    requires RecOk(b, p) && NAME_OFFSET <= len && len + NAME_OFFSET <= RecLen(b, p)
    requires RecIno(b, p) != 0 && NAME_OFFSET + NameLen(b, p) <= len
    ensures var r := Cut(b, p, len);
            && RecOk(r, p) && RecEntry(r, p) == RecEntry(b, p) && RecName(r, p) == RecName(b, p) && RecLen(r, p) == len
            && RecLen(r, p + len) == RecLen(b, p) - len
            && (forall k :: 0 <= k < |b| && !(p <= k < p + RecLen(b, p)) ==> r[k] == b[k])
  {
    hide Write16;
    var b1 := Write16(b, p + 4, len);
    var r := Write16(b1, p + len + 4, RecLen(b, p) - len);
    assert RecLen(b1, p) == len;
    assert RecName(r, p) == RecName(b, p);
  }

  /** Splits the live record at `p` to its least length and puts a new record behind it. */
  function SplitRecord(b: Block, p: nat, ino: nat, name: Name, fileType: byte): (r: Block)
    requires RecOk(b, p) && |name| <= MAX_NAME && 0 < ino < TWO_32
    requires RecLen(b, p) >= MinLen(NameLen(b, p)) + MinLen(|name|)
    ensures |r| == |b|
  {
    PutEntry(Cut(b, p, MinLen(NameLen(b, p))), p + MinLen(NameLen(b, p)), ino, name, fileType)
  }

  lemma SplitRecordShape(b: Block, p: nat, ino: nat, name: Name, fileType: byte)
    requires RecOk(b, p) && RecIno(b, p) != 0 && |name| <= MAX_NAME && 0 < ino < TWO_32
    requires RecLen(b, p) >= MinLen(NameLen(b, p)) + MinLen(|name|)
    ensures var r, q := SplitRecord(b, p, ino, name, fileType), p + MinLen(NameLen(b, p));
            && RecOk(r, p) && RecEntry(r, p) == RecEntry(b, p) && RecName(r, p) == RecName(b, p) && p + RecLen(r, p) == q
            && RecOk(r, q) && RecEntry(r, q) == Rec(ino, fileType) && RecName(r, q) == name && q + RecLen(r, q) == p + RecLen(b, p)
            && (forall k :: 0 <= k < |b| && !(p <= k < p + RecLen(b, p)) ==> r[k] == b[k])
  {
    hide PutEntry, MinLen, Cut;
    var actual := MinLen(NameLen(b, p));
    var cut := Cut(b, p, actual);
    CutShape(b, p, actual);
    SameRecord(cut, PutEntry(cut, p + actual, ino, name, fileType), p, p + actual);
  }

  lemma SplitRecordAdds(b: Block, p: nat, ino: nat, name: Name, fileType: byte)
    requires Tiles(b, p) && p < |b| && RecIno(b, p) != 0 && Unique(b, p)
    requires |name| <= MAX_NAME && 0 < ino < TWO_32 && name !in Names(b, p)
    requires RecLen(b, p) >= MinLen(NameLen(b, p)) + MinLen(|name|)
    ensures var r := SplitRecord(b, p, ino, name, fileType);
            && Tiles(r, p) && Names(r, p) == Names(b, p)[name := Rec(ino, fileType)] && Unique(r, p)
            && (AllLive(b, p) ==> AllLive(r, p)) && (forall k :: 0 <= k < p ==> r[k] == b[k])
  {
    hide SplitRecord, PutEntry, MinLen, RecOk, RecName, RecLen, RecIno, NameLen;
    RecOkFacts(b, p);
    var r, next := SplitRecord(b, p, ino, name, fileType), p + RecLen(b, p);
    SplitRecordShape(b, p, ino, name, fileType);
    RecOkFacts(r, p);
    RecOkFacts(r, p + RecLen(r, p));
    SameTail(b, r, next);
    PutTwice(Names(b, next), RecName(b, p), RecEntry(b, p), name, Rec(ino, fileType));
  }

  lemma RecOkFacts(b: Block, p: nat)
    requires RecOk(b, p)
    ensures p + NAME_OFFSET <= |b| && 8 <= RecLen(b, p) && p + RecLen(b, p) <= |b|
  {
  }

  lemma PutTwice(m: map<Name, Rec>, x: Name, v: Rec, y: Name, w: Rec)
    requires x != y
    ensures m[y := w][x := v] == m[x := v][y := w]
  {
  }

  /** Reuses the dead record at `p`, length and all. */
  lemma ReuseAdds(b: Block, p: nat, ino: nat, name: Name, fileType: byte)
    requires Tiles(b, p) && p < |b| && RecIno(b, p) == 0 && Unique(b, p)
    requires |name| <= MAX_NAME && 0 < ino < TWO_32 && name !in Names(b, p) && RecLen(b, p) >= 8 + MinLen(|name|)
    ensures p + NAME_OFFSET + |name| <= |b|
    ensures var r := PutEntry(b, p, ino, name, fileType);
            && Tiles(r, p) && Names(r, p) == Names(b, p)[name := Rec(ino, fileType)] && Unique(r, p)
            && (forall k :: 0 <= k < p ==> r[k] == b[k])
  {
    ReuseShape(b, p, ino, name, fileType);
    ReuseAddsTo(b, PutEntry(b, p, ino, name, fileType), p, Rec(ino, fileType), name);
  }

  lemma ReuseAddsTo(b: Block, r: Block, p: nat, entry: Rec, name: Name)
    requires Tiles(b, p) && p < |b| && RecIno(b, p) == 0 && Unique(b, p) && name !in Names(b, p)
    requires |r| == |b| && RecOk(r, p) && RecLen(r, p) == RecLen(b, p)
    requires RecEntry(r, p) == entry && entry.ino != 0 && RecName(r, p) == name
    requires forall k :: 0 <= k < |b| && !(p <= k < p + RecLen(b, p)) ==> r[k] == b[k]
    ensures Tiles(r, p) && Names(r, p) == Names(b, p)[name := entry] && Unique(r, p)
  {
    hide RecOk, RecName, RecLen, RecIno;
    RecOkFacts(b, p);
    var next := p + RecLen(b, p);
    FrontDead(b, p);
    SameTail(b, r, next);
    hide Tiles, Names, Unique, AllLive;
    FrontLive(r, p);
  }

  lemma ReuseShape(b: Block, p: nat, ino: nat, name: Name, fileType: byte)
    requires RecOk(b, p) && |name| <= MAX_NAME && 0 < ino < TWO_32 && RecLen(b, p) >= 8 + MinLen(|name|)
    ensures p + NAME_OFFSET + |name| <= |b|
    ensures var r := PutEntry(b, p, ino, name, fileType);
            && RecOk(r, p) && RecLen(r, p) == RecLen(b, p) && RecEntry(r, p) == Rec(ino, fileType) && RecName(r, p) == name
            && (forall k :: 0 <= k < |b| && !(p <= k < p + RecLen(b, p)) ==> r[k] == b[k])
  {
    hide PutEntry;
  }

  // ---------- removing a record ----------

  /** The previous live record swallows as many bytes as the removed record is long. */
  function Merge(b: Block, previous: nat, p: nat): (r: Block)
    requires RecOk(b, previous) && RecOk(b, p) && previous + RecLen(b, previous) <= p && |b| < TWO_16
    ensures |r| == |b|
  {
    Write16(b, previous + 4, RecLen(b, previous) + RecLen(b, p))
  }

  lemma MergeShape(b: Block, previous: nat, p: nat)
    requires RecOk(b, previous) && RecIno(b, previous) != 0 && |b| < TWO_16 && RecOk(b, p)
    requires p == previous + RecLen(b, previous)
    ensures var r := Merge(b, previous, p);
            && RecOk(r, previous) && RecEntry(r, previous) == RecEntry(b, previous) && RecName(r, previous) == RecName(b, previous)
            && previous + RecLen(r, previous) == p + RecLen(b, p)
            && (forall k :: 0 <= k < |b| && !(previous <= k < p) ==> r[k] == b[k])
  {
    var r := Merge(b, previous, p);
    hide Write16;
    assert RecEntry(r, previous) == RecEntry(b, previous);
    assert RecName(r, previous) == RecName(b, previous);
  }

  /** Merging removes the record when the previous live record is the one right in front of it. */
  lemma MergeRemoves(b: Block, previous: nat, p: nat)
    requires Tiles(b, previous) && previous < |b| < TWO_16 && RecIno(b, previous) != 0 && Unique(b, previous)
    requires RecOk(b, p) && p == previous + RecLen(b, previous) < |b| && RecIno(b, p) != 0
    ensures var r := Merge(b, previous, p);
            && Tiles(r, previous) && Names(r, previous) == Names(b, previous) - {RecName(b, p)} && Unique(r, previous)
            && (AllLive(b, previous) ==> AllLive(r, previous)) && (forall k :: 0 <= k < previous ==> r[k] == b[k])
  {
    hide Merge, RecOk, RecName, RecLen, RecIno, NameLen;
    RecOkFacts(b, p);
    RecOkFacts(b, previous);
    var r, next := Merge(b, previous, p), p + RecLen(b, p);
    MergeShape(b, previous, p);
    RecOkFacts(r, previous);
    SameTail(b, r, next);
    var rest, x, y := Names(b, next), RecName(b, previous), RecName(b, p);
    assert Names(b, p) == rest[y := RecEntry(b, p)];
    assert AllLive(b, previous) ==> AllLive(b, p) && AllLive(b, next);
    hide Tiles, Names, Unique;
    PutRemove(rest[y := RecEntry(b, p)], x, RecEntry(b, previous), y);
    assert rest[y := RecEntry(b, p)] - {y} == rest;
  }

  /** Zeroing the inode number removes a record that no live record precedes. */
  lemma ZeroRemoves(b: Block, p: nat)
    requires Tiles(b, p) && p < |b| && RecIno(b, p) != 0 && Unique(b, p)
    ensures var r := Write32(b, p, 0);
            && Tiles(r, p) && Names(r, p) == Names(b, p) - {RecName(b, p)} && Unique(r, p)
            && (forall k :: 0 <= k < p ==> r[k] == b[k])
  {
    hide Write32, RecOk, RecName, RecLen, RecIno, NameLen;
    RecOkFacts(b, p);
    var r := Write32(b, p, 0);
    ZeroShape(b, p);
    SameTail(b, r, p + RecLen(b, p));
  }

  lemma ZeroShape(b: Block, p: nat)
    requires RecOk(b, p)
    ensures var r := Write32(b, p, 0);
            && RecOk(r, p) && RecIno(r, p) == 0 && RecLen(r, p) == RecLen(b, p)
            && (forall k :: 0 <= k < |b| && !(p <= k < p + RecLen(b, p)) ==> r[k] == b[k])
  {
    hide Write32;
  }

  // ---------- which removals are safe ----------

  /** The last live record before `q`, walking from `p`; -1 if there is none. */
  function LastLive(b: Block, p: nat, q: nat): (r: int)
    requires Reaches(b, p, q)
    ensures -1 <= r < q
    decreases |b| - p
  {
    if p == q then -1
    else
      var later := LastLive(b, p + RecLen(b, p), q);
      if later >= 0 then later else if RecIno(b, p) != 0 then p else -1
  }

  /** A record may be removed cleanly when no live record precedes it, or when the last one that does touches it. */
  predicate Removable(b: Block, q: nat)
    requires Reaches(b, 0, q)
  {
    var previous := LastLive(b, 0, q);
    previous < 0 || (previous + NAME_OFFSET <= |b| && previous + RecLen(b, previous) == q)
  }

  lemma {:induction false} LastLiveStep(b: Block, p: nat, q: nat)
    requires Reaches(b, p, q) && RecOk(b, q)
    ensures Reaches(b, p, q + RecLen(b, q))
    ensures LastLive(b, p, q + RecLen(b, q)) == if RecIno(b, q) != 0 then q else LastLive(b, p, q)
    decreases |b| - p
  {
    if p < q {
      LastLiveStep(b, p + RecLen(b, p), q);
    }
  }

  /** The last live record is a live record on the walk. */
  lemma {:induction false} LastLiveReached(b: Block, p: nat, q: nat)
    requires Reaches(b, p, q) && LastLive(b, p, q) >= 0
    ensures var l := LastLive(b, p, q);
            && Reaches(b, p, l) && p <= l < q && RecOk(b, l) && RecIno(b, l) != 0 && l + RecLen(b, l) <= q
    decreases |b| - p
  {
    if LastLive(b, p + RecLen(b, p), q) >= 0 {
      LastLiveReached(b, p + RecLen(b, p), q);
    }
  }

  /** Where all records are live, as in a directory's first block, every record may be removed. */
  lemma {:induction false} AllLiveRemovable(b: Block, p: nat, q: nat)
    requires Tiles(b, p) && AllLive(b, p) && Reaches(b, p, q) && p < q
    ensures var l := LastLive(b, p, q);
            l >= 0 && l + NAME_OFFSET <= |b| && l + RecLen(b, l) == q
    decreases |b| - p
  {
    var next := p + RecLen(b, p);
    if next != q {
      AllLiveRemovable(b, next, q);
    }
  }

  lemma {:induction false} ReachesSame(b: Block, r: Block, p: nat, q: nat)
    requires Reaches(b, p, q) && |r| == |b| && forall k :: p <= k < q && k < |b| ==> r[k] == b[k]
    ensures Reaches(r, p, q)
    decreases |b| - p
  {
    if p < q {
      ReachesSame(b, r, p + RecLen(b, p), q);
    }
  }

  /** Of two places on a walk the later one is reached from the earlier one. */
  lemma {:induction false} ReachesLinear(b: Block, p: nat, q: nat, s: nat)
    requires Reaches(b, p, q) && Reaches(b, p, s) && q <= s
    ensures Reaches(b, q, s)
    decreases |b| - p
  {
    if p < q {
      ReachesLinear(b, p + RecLen(b, p), q, s);
    }
  }

  lemma {:induction false} ReachesTransitive(b: Block, p: nat, q: nat, s: nat)
    requires Reaches(b, p, q) && Reaches(b, q, s)
    ensures Reaches(b, p, s)
    decreases |b| - p
  {
    if p < q {
      ReachesTransitive(b, p + RecLen(b, p), q, s);
    }
  }

  /** Every record other than the one at `p` is still on the walk. */
  ghost predicate OthersReached(b: Block, r: Block, p: nat) {
    forall q: nat :: Reaches(b, 0, q) && q != p ==> Reaches(r, 0, q)
  }

  lemma MergedRecord(b: Block, l: nat, p: nat)
    requires RecOk(b, l) && RecIno(b, l) != 0 && RecOk(b, p) && l + RecLen(b, l) <= p && |b| < TWO_16
    ensures var r := Merge(b, l, p);
            && RecOk(r, l) && RecLen(r, l) == RecLen(b, l) + RecLen(b, p)
            && forall k :: 0 <= k < |b| && k != l + 4 && k != l + 5 ==> r[k] == b[k]
  {
  }

  /** The guard is exact for every removal that merges: all the other records of the block stay on the walk if and only if
      the removed record follows the last live one directly. */
  lemma MergeExact(b: Block, p: nat)
    requires Reaches(b, 0, p) && RecOk(b, p) && LastLive(b, 0, p) >= 0 && |b| < TWO_16
    ensures var l := LastLive(b, 0, p);
            && RecOk(b, l) && l + RecLen(b, l) <= p
            && (OthersReached(b, Merge(b, l, p), p) <==> Removable(b, p))
  {
    var l: nat := LastLive(b, 0, p);
    LastLiveReached(b, 0, p);
    MergedRecord(b, l, p);
    var r := Merge(b, l, p);
    hide Merge, LastLive, RecOk, RecLen, RecIno;
    ReachesSame(b, r, 0, l);
    if l + RecLen(b, l) == p {
      MergeKeepsOthers(b, r, l, p);
    } else {
      MergeSkips(b, r, l, p);
    }
  }

  lemma MergeKeepsOthers(b: Block, r: Block, l: nat, p: nat)
    requires Reaches(b, 0, l) && Reaches(r, 0, l) && RecOk(b, l) && RecOk(r, l) && RecOk(b, p) && l + RecLen(b, l) == p
    requires RecLen(r, l) == RecLen(b, l) + RecLen(b, p) && |r| == |b|
    requires forall k :: 0 <= k < |b| && k != l + 4 && k != l + 5 ==> r[k] == b[k]
    ensures OthersReached(b, r, p)
  {
    hide RecOk, RecLen;
    Ends(b, l);
    Ends(b, p);
    Ends(r, l);
    var n := p + RecLen(b, p);
    ReachesStep(r, 0, l);
    forall q: nat | Reaches(b, 0, q) && q != p ensures Reaches(r, 0, q) {
      if q <= l {
        ReachesSame(b, r, 0, q);
      } else {
        ReachesLinear(b, 0, l, q);
        ReachesSame(b, r, n, q);
        ReachesTransitive(r, 0, n, q);
      }
    }
  }

  lemma Ends(b: Block, p: nat)
    requires RecOk(b, p)
    ensures p + NAME_OFFSET <= |b| && 8 <= RecLen(b, p) && p + RecLen(b, p) <= |b|
  {
  }

  /** With dead records in between, the merged record swallows the first of them and more. */
  lemma MergeSkips(b: Block, r: Block, l: nat, p: nat)
    requires Reaches(b, 0, l) && Reaches(r, 0, l) && RecOk(b, l) && RecOk(r, l) && RecOk(b, p) && l + RecLen(b, l) < p
    requires RecLen(r, l) == RecLen(b, l) + RecLen(b, p) && |r| == |b|
    ensures !OthersReached(b, r, p)
  {
    hide RecOk, RecLen;
    Ends(b, l);
    Ends(b, p);
    Ends(r, l);
    var g := l + RecLen(b, l);
    ReachesStep(b, 0, l);
    assert !Reaches(r, l + RecLen(r, l), g);
    assert !Reaches(r, l, g);
    if Reaches(r, 0, g) {
      ReachesLinear(r, 0, l, g);
    }
    assert Reaches(b, 0, g) && g != p && !Reaches(r, 0, g);
  }

  /** Without the guard the claim is false: dead records in between as long as the removed one make the merged
      record end where the removed one starts, and the name is still found. */
  lemma MergeMisses(b: Block, previous: nat, p: nat)
    requires Tiles(b, p) && RecOk(b, previous) && RecOk(b, p) && RecIno(b, previous) != 0 && RecIno(b, p) != 0
    requires |b| < TWO_16 && previous + RecLen(b, previous) + RecLen(b, p) == p < |b|
    ensures var r := Merge(b, previous, p);
            Tiles(r, previous) && RecName(b, p) in Names(r, previous)
  {
    var r := Merge(b, previous, p);
    assert RecOk(r, previous) && previous + RecLen(r, previous) == p;
    SameTail(b, r, p);
    assert RecName(b, p) in Names(b, p);
  }

  /** Records of 24 bytes at 0, 24 and 48, the first two live or dead as told, and at least one more byte. */
  ghost predicate ThreeRecords(b: Block, live0: bool, live1: bool) {
    && 72 < |b| && RecOk(b, 0) && RecOk(b, 24) && RecOk(b, 48)
    && RecLen(b, 0) == 24 && RecLen(b, 24) == 24 && RecLen(b, 48) == 24
    && (RecIno(b, 0) != 0 <==> live0) && (RecIno(b, 24) != 0 <==> live1) && RecIno(b, 48) != 0
  }

  lemma ThreeRecordsWalk(b: Block, live0: bool, live1: bool)
    requires ThreeRecords(b, live0, live1)
    ensures Reaches(b, 0, 24) && Reaches(b, 0, 48)
    ensures LastLive(b, 0, 24) == if live0 then 0 else -1
    ensures LastLive(b, 0, 48) == if live1 then 24 else if live0 then 0 else -1
  {
    assert Reaches(b, 24, 48) && Reaches(b, 48, 48) && Reaches(b, 24, 24);
    assert LastLive(b, 24, 48) == if live1 then 24 else -1;
  }

  /** In a directory's second block, which need not start with a live record, a run of the driver gets there: the first two
      entries are removed, a new one takes the place of the first, and then the third is removed, but still found. */
  lemma DeadRecordArises(b: Block, name: Name, ino: nat, fileType: byte)
    requires Tiles(b, 48) && ThreeRecords(b, true, true) && |b| < TWO_16 && |name| <= 8 && 0 < ino < TWO_32
    ensures LastLive(b, 0, 0) < 0
    ensures var b1 := Write32(b, 0, 0);
            var b2 := Write32(b1, 24, 0);
            var b3 := PutEntry(b2, 0, ino, name, fileType);
            && ThreeRecords(b1, false, true) && Reaches(b1, 0, 24) && LastLive(b1, 0, 24) < 0
            && ThreeRecords(b2, false, false) && RecLen(b2, 0) >= 8 + MinLen(|name|)
            && ThreeRecords(b3, true, false) && Reaches(b3, 0, 48) && LastLive(b3, 0, 48) == 0
            && (var b4 := Merge(b3, 0, 48);
                Tiles(b4, 0) && RecName(b3, 48) == RecName(b, 48) && RecName(b, 48) in Names(b4, 0))
  {
    hide Write32, PutEntry, RecOk, RecName, RecLen, RecIno, NameLen, Merge, LastLive, Reaches;
    var b1 := Write32(b, 0, 0);
    ZeroShape(b, 0);
    SameRecord(b, b1, 24, |b|);
    SameRecord(b, b1, 48, |b|);
    ThreeRecordsWalk(b1, false, true);
    var b2 := Write32(b1, 24, 0);
    ZeroShape(b1, 24);
    SameRecord(b1, b2, 0, 24);
    SameRecord(b1, b2, 48, |b|);
    var b3 := PutEntry(b2, 0, ino, name, fileType);
    ReuseShape(b2, 0, ino, name, fileType);
    SameRecord(b2, b3, 24, |b|);
    SameRecord(b2, b3, 48, |b|);
    ThreeRecordsWalk(b3, true, false);
    SameTail(b, b3, 48);
    MergeMisses(b3, 0, 48);
  }
}
