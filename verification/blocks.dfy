/** The format description file (Formats.def) as a sequence of already-extracted
    `[Format] ... [Format end]` blocks, and the fold that `parse_formats_file`
    runs over them: a GUID-keyed dictionary with Python insertion order, a set
    of retired GUIDs, and the final filter. */
module FormatBlocks {
  import opened Wrappers

  /** An `Out =` or `DeviceRes =` line's width and height (its frame rate is not modelled). */
  datatype Resolution = Resolution(width: int, height: int)

  /** One format block, its fields already pulled out of the text. */
  datatype Block = Block(
    guid: Option<string>,      // `Guid = {...}`; a block without one is skipped
    deprecated: bool,          // the lower-cased block contains "this format is deprecated"
    replacesGuid: Option<string>,  // the first `replaces {...}` (case-insensitive)
    name: Option<string>,      // `Name = "..."`
    out: Option<Resolution>,   // `Out = W H FPS`
    deviceRes: Option<Resolution>,
    hwrev: Option<string>,
    fwrev: Option<string>)

  /** A stored catalog record (the Python `format_info` dictionary). */
  datatype VideoFormat = VideoFormat(
    guid: string,
    name: Option<string>,
    out: Option<Resolution>,
    deviceRes: Option<Resolution>,
    hwrev: Option<string>,
    fwrev: Option<string>)

  function ToFormat(b: Block, g: string): VideoFormat
  {
    VideoFormat(g, b.name, b.out, b.deviceRes, b.hwrev, b.fwrev)
  }

  /** The loop state of the parser: the dictionary's keys in insertion order,
      its contents, and the set of retired GUIDs. */
  datatype ScanState = ScanState(order: seq<string>, byGuid: map<string, VideoFormat>, deprecated: set<string>)

  const EmptyScan: ScanState := ScanState([], map[], {})

  /** Dictionary keys are listed once each, exactly the stored keys, and each
      record is filed under its own GUID. */
  ghost predicate WellFormed(s: ScanState)
  {
    && Distinct(s.order)
    && (forall g :: g in s.byGuid <==> g in s.order)
    && (forall g :: g in s.byGuid ==> s.byGuid[g].guid == g)
  }

  /** One pass of the loop body over a block. */
  function Step(s: ScanState, b: Block): ScanState
  {
    match b.guid
    case None => s
    case Some(g) =>
      if b.deprecated then s.(deprecated := s.deprecated + {g})
      else
        var dep := if b.replacesGuid.Some? then s.deprecated + {b.replacesGuid.value} else s.deprecated;
        var order := if g in s.byGuid then s.order else s.order + [g];
        ScanState(order, s.byGuid[g := ToFormat(b, g)], dep)
  }

  /** The loop state after all of `blocks`, in file order. */
  function Scan(blocks: seq<Block>): (s: ScanState)
    ensures WellFormed(s)
    decreases |blocks|
  {
    if blocks == [] then EmptyScan
    else Step(Scan(blocks[..|blocks| - 1]), blocks[|blocks| - 1])
  }

  /** The list comprehension over the dictionary's items that drops retired GUIDs. */
  function Retained(order: seq<string>, byGuid: map<string, VideoFormat>, dep: set<string>): seq<VideoFormat>
    requires forall g :: g in order ==> g in byGuid
    decreases |order|
  {
    if order == [] then []
    else (if order[0] in dep then [] else [byGuid[order[0]]]) + Retained(order[1..], byGuid, dep)
  }

  /** The retained catalog that parsing `blocks` leaves in `self.formats`. */
  function Catalog(blocks: seq<Block>): seq<VideoFormat>
  {
    var s := Scan(blocks);
    Retained(s.order, s.byGuid, s.deprecated)
  }

  function Guids(fs: seq<VideoFormat>): seq<string>
  {
    seq(|fs|, k requires 0 <= k < |fs| => fs[k].guid)
  }

  // ---------------------------------------------------------------------------
  // Reference definitions, stated over the blocks and not over the loop state.

  /** `b` files a record under `g`: it has that GUID and is not deprecated. */
  predicate Stores(b: Block, g: string)
  {
    b.guid == Some(g) && !b.deprecated
  }

  /** The GUIDs of the storing blocks, in file order, repeats included. */
  function StoredGuids(blocks: seq<Block>): seq<string>
    decreases |blocks|
  {
    if blocks == [] then []
    else
      var b := blocks[|blocks| - 1];
      StoredGuids(blocks[..|blocks| - 1]) + (if b.guid.Some? && !b.deprecated then [b.guid.value] else [])
  }

  /** Every GUID some block retires: a deprecated block's own GUID, and the
      `replaces` target of a non-deprecated block that has a GUID. */
  ghost function RetiredGuids(blocks: seq<Block>): set<string>
  {
    (set i | 0 <= i < |blocks| && blocks[i].guid.Some? && blocks[i].deprecated :: blocks[i].guid.value)
    + (set i | 0 <= i < |blocks| && blocks[i].guid.Some? && !blocks[i].deprecated && blocks[i].replacesGuid.Some?
         :: blocks[i].replacesGuid.value)
  }

  /** Block `i` is the last block that stores `g`. */
  ghost predicate IsLastStore(blocks: seq<Block>, i: int, g: string)
  {
    && 0 <= i < |blocks|
    && Stores(blocks[i], g)
    && forall j :: i < j < |blocks| ==> !Stores(blocks[j], g)
  }

  // ---------------------------------------------------------------------------
  // The loop state agrees with the reference definitions.

  /** What one block adds to the retired set. */
  function RetiredBy(b: Block): set<string>
  {
    if b.guid.None? then {}
    else if b.deprecated then {b.guid.value}
    else if b.replacesGuid.Some? then {b.replacesGuid.value}
    else {}
  }

  /** Appending a block adds exactly what that block retires. */
  lemma RetiredGuidsSnoc(pre: seq<Block>, b: Block)
    ensures RetiredGuids(pre + [b]) == RetiredGuids(pre) + RetiredBy(b)
  {
    var blocks := pre + [b];
    forall x | x in RetiredGuids(blocks) ensures x in RetiredGuids(pre) + RetiredBy(b) {
      var i :| 0 <= i < |blocks| && blocks[i].guid.Some?
               && ((blocks[i].deprecated && blocks[i].guid.value == x)
                   || (!blocks[i].deprecated && blocks[i].replacesGuid.Some? && blocks[i].replacesGuid.value == x));
      if i < |pre| {
        assert blocks[i] == pre[i];
      }
    }
    forall x | x in RetiredGuids(pre) ensures x in RetiredGuids(blocks) {
      var i :| 0 <= i < |pre| && pre[i].guid.Some?
               && ((pre[i].deprecated && pre[i].guid.value == x)
                   || (!pre[i].deprecated && pre[i].replacesGuid.Some? && pre[i].replacesGuid.value == x));
      assert blocks[i] == pre[i];
    }
    forall x | x in RetiredBy(b) ensures x in RetiredGuids(blocks) {
      assert blocks[|pre|] == b;
    }
  }

  lemma {:induction false} ScanRetiresExactly(blocks: seq<Block>)
    ensures Scan(blocks).deprecated == RetiredGuids(blocks)
    decreases |blocks|
  {
    if blocks != [] {
      var n := |blocks| - 1;
      var pre, b := blocks[..n], blocks[n];
      ScanRetiresExactly(pre);
      assert blocks == pre + [b];
      RetiredGuidsSnoc(pre, b);
      assert Scan(blocks).deprecated == Scan(pre).deprecated + RetiredBy(b);
    }
  }

  lemma {:induction false} ScanStoresExactly(blocks: seq<Block>)
    ensures forall g :: g in Scan(blocks).byGuid <==> g in StoredGuids(blocks)
    decreases |blocks|
  {
    if blocks != [] {
      ScanStoresExactly(blocks[..|blocks| - 1]);
    }
  }

  /** The dictionary's keys are the stored GUIDs in order of FIRST insertion:
      a later block with a known GUID does not move it. */
  lemma {:induction false} ScanOrderIsFirstSeen(blocks: seq<Block>)
    ensures Scan(blocks).order == Dedup(StoredGuids(blocks))
    decreases |blocks|
  {
    if blocks != [] {
      var n := |blocks| - 1;
      var pre, b := blocks[..n], blocks[n];
      ScanOrderIsFirstSeen(pre);
      ScanStoresExactly(pre);
      var sg := StoredGuids(pre);
      if b.guid.Some? && !b.deprecated {
        assert StoredGuids(blocks) == sg + [b.guid.value];
        assert (sg + [b.guid.value])[..|sg|] == sg;
      } else {
        assert StoredGuids(blocks) == sg;
      }
    }
  }

  /** Last write wins: the record kept under `g` is the one built from the last block storing it. */
  lemma {:induction false} ScanLastWriteWins(blocks: seq<Block>, i: int, g: string)
    requires IsLastStore(blocks, i, g)
    ensures g in Scan(blocks).byGuid && Scan(blocks).byGuid[g] == ToFormat(blocks[i], g)
    decreases |blocks|
  {
    var n := |blocks| - 1;
    var pre := blocks[..n];
    if i < n {
      assert IsLastStore(pre, i, g) by {
        forall j | i < j < |pre| ensures !Stores(pre[j], g) { assert pre[j] == blocks[j]; }
      }
      ScanLastWriteWins(pre, i, g);
      assert !Stores(blocks[n], g);
    }
  }

  /** A GUID that some block stores has a last storing block. */
  lemma {:induction false} LastStoreExists(blocks: seq<Block>, i: int, g: string) returns (last: int)
    requires 0 <= i < |blocks| && Stores(blocks[i], g)
    ensures IsLastStore(blocks, last, g) && i <= last
    decreases |blocks| - i
  {
    if j :| i < j < |blocks| && Stores(blocks[j], g) {
      last := LastStoreExists(blocks, j, g);
    } else {
      last := i;
    }
  }

  lemma {:induction false} StoredGuidsHaveBlock(blocks: seq<Block>, g: string) returns (i: int)
    requires g in StoredGuids(blocks)
    ensures 0 <= i < |blocks| && Stores(blocks[i], g)
    decreases |blocks|
  {
    var n := |blocks| - 1;
    var pre := blocks[..n];
    if g in StoredGuids(pre) {
      i := StoredGuidsHaveBlock(pre, g);
      assert pre[i] == blocks[i];
    } else {
      i := n;
    }
  }

  // ---------------------------------------------------------------------------
  // The retained catalog.

  lemma {:induction false} RetainedGuids(order: seq<string>, byGuid: map<string, VideoFormat>, dep: set<string>)
    requires forall g :: g in order ==> g in byGuid && byGuid[g].guid == g
    ensures Guids(Retained(order, byGuid, dep)) == Without(order, dep)
    decreases |order|
  {
    if order != [] {
      RetainedGuids(order[1..], byGuid, dep);
      var head := if order[0] in dep then [] else [byGuid[order[0]]];
      var tail := Retained(order[1..], byGuid, dep);
      assert Guids(head + tail) == Guids(head) + Guids(tail);
    }
  }

  lemma {:induction false} RetainedMembers(order: seq<string>, byGuid: map<string, VideoFormat>, dep: set<string>)
    requires forall g :: g in order ==> g in byGuid
    ensures forall f :: f in Retained(order, byGuid, dep) <==>
              exists g :: g in order && g !in dep && f == byGuid[g]
    decreases |order|
  {
    if order != [] {
      RetainedMembers(order[1..], byGuid, dep);
      forall f | f in Retained(order, byGuid, dep)
        ensures exists g :: g in order && g !in dep && f == byGuid[g]
      {
        if f !in Retained(order[1..], byGuid, dep) {
          assert order[0] in order;
        }
      }
    }
  }

  /** The retained GUIDs are the first-seen stored GUIDs minus every retired one, in that order. */
  lemma CatalogGuidOrder(blocks: seq<Block>)
    ensures Guids(Catalog(blocks)) == Without(Dedup(StoredGuids(blocks)), RetiredGuids(blocks))
  {
    var s := Scan(blocks);
    RetainedGuids(s.order, s.byGuid, s.deprecated);
    ScanOrderIsFirstSeen(blocks);
    ScanRetiresExactly(blocks);
  }

  /** No GUID appears twice in the catalog. */
  lemma CatalogGuidsUnique(blocks: seq<Block>)
    ensures forall i, j :: 0 <= i < j < |Catalog(blocks)| ==> Catalog(blocks)[i].guid != Catalog(blocks)[j].guid
  {
    var cat := Catalog(blocks);
    CatalogGuidOrder(blocks);
    WithoutKeepsDistinct(Dedup(StoredGuids(blocks)), RetiredGuids(blocks));
    forall i, j | 0 <= i < j < |cat| ensures cat[i].guid != cat[j].guid {
      assert Guids(cat)[i] == cat[i].guid && Guids(cat)[j] == cat[j].guid;
    }
  }

  /** A format is in the catalog exactly when its GUID is never retired, some
      block stores it, and it is the record built from the last such block. */
  lemma CatalogMembership(blocks: seq<Block>, f: VideoFormat)
    ensures f in Catalog(blocks) <==>
      f.guid !in RetiredGuids(blocks) && exists i :: IsLastStore(blocks, i, f.guid) && f == ToFormat(blocks[i], f.guid)
  {
    var s := Scan(blocks);
    RetainedMembers(s.order, s.byGuid, s.deprecated);
    ScanRetiresExactly(blocks);
    ScanStoresExactly(blocks);
    if f in Catalog(blocks) {
      var g :| g in s.order && g !in s.deprecated && f == s.byGuid[g];
      assert f.guid == g;
      var i0 := StoredGuidsHaveBlock(blocks, g);
      var i := LastStoreExists(blocks, i0, g);
      ScanLastWriteWins(blocks, i, g);
    }
    if f.guid !in RetiredGuids(blocks) && exists i :: IsLastStore(blocks, i, f.guid) && f == ToFormat(blocks[i], f.guid) {
      var i :| IsLastStore(blocks, i, f.guid) && f == ToFormat(blocks[i], f.guid);
      ScanLastWriteWins(blocks, i, f.guid);
    }
  }

  /** No retained format carries a retired GUID. */
  lemma CatalogExcludesRetired(blocks: seq<Block>)
    ensures forall f :: f in Catalog(blocks) ==> f.guid !in RetiredGuids(blocks)
  {
    forall f | f in Catalog(blocks) ensures f.guid !in RetiredGuids(blocks) {
      CatalogMembership(blocks, f);
    }
  }
}
