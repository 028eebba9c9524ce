/** Worked catalogs: small block lists whose retained catalog is computed
    outright, showing that retirement does not depend on block order. */
module CatalogExamples {
  import opened Wrappers
  import opened FormatBlocks
  import opened FormatCatalog

  function Plain(g: string, name: string): Block
  {
    Block(Some(g), false, None, Some(name), Some(Resolution(640, 480)), None, None, None)
  }

  lemma ScanTwo(x: Block, y: Block)
    ensures Scan([x, y]) == Step(Step(EmptyScan, x), y)
  {
    assert [x, y][..1] == [x] && [x][..0] == [];
    assert Scan([x]) == Step(Scan([]), x);
    assert Scan([x, y]) == Step(Scan([x]), y);
  }

  lemma ScanThree(x: Block, y: Block, z: Block)
    ensures Scan([x, y, z]) == Step(Step(Step(EmptyScan, x), y), z)
  {
    assert [x, y, z][..2] == [x, y];
    ScanTwo(x, y);
    assert Scan([x, y, z]) == Step(Scan([x, y]), z);
  }

  /** The comprehension over a two-key dictionary. */
  lemma RetainedPair(a: string, b: string, m: map<string, VideoFormat>, dep: set<string>)
    requires a in m && b in m
    ensures Retained([a, b], m, dep)
            == (if a in dep then [] else [m[a]]) + (if b in dep then [] else [m[b]])
  {
    assert [a, b][1..] == [b] && [b][1..] == [];
    assert Retained([b], m, dep) == (if b in dep then [] else [m[b]]);
  }

  /** A block replacing an earlier one retires it ... */
  lemma ReplacementAfterBlock(a: string, b: string)
    requires a != b
    ensures Catalog([Plain(b, "PI 640"), Plain(a, "PI 640i").(replacesGuid := Some(b))])
            == [ToFormat(Plain(a, "PI 640i"), a)]
  {
    var bb := Plain(b, "PI 640");
    var ab := Plain(a, "PI 640i").(replacesGuid := Some(b));
    var fa, fb := ToFormat(ab, a), ToFormat(bb, b);
    var m := map[b := fb, a := fa];
    assert Scan([bb, ab]) == ScanState([b, a], m, {b}) by {
      var s1 := ScanState([b], map[b := fb], {});
      assert Step(EmptyScan, bb) == s1 by {}
      assert Step(s1, ab) == ScanState([b, a], m, {b}) by {}
      ScanTwo(bb, ab);
    }
    RetainedPair(b, a, m, {b});
  }

  /** ... and so does a replacing block that comes before it. */
  lemma ReplacementBeforeBlock(a: string, b: string)
    requires a != b
    ensures Catalog([Plain(a, "PI 640i").(replacesGuid := Some(b)), Plain(b, "PI 640")])
            == [ToFormat(Plain(a, "PI 640i"), a)]
  {
    var bb := Plain(b, "PI 640");
    var ab := Plain(a, "PI 640i").(replacesGuid := Some(b));
    var fa, fb := ToFormat(ab, a), ToFormat(bb, b);
    var m := map[a := fa, b := fb];
    assert Scan([ab, bb]) == ScanState([a, b], m, {b}) by {
      var s1 := ScanState([a], map[a := fa], {b});
      assert Step(EmptyScan, ab) == s1 by {}
      assert Step(s1, bb) == ScanState([a, b], m, {b}) by {}
      ScanTwo(ab, bb);
    }
    RetainedPair(a, b, m, {b});
  }

  /** A deprecated block's `replaces` reference retires nothing and it stores no record. */
  lemma DeprecatedBlockRetiresOnlyItself(a: string, b: string)
    requires a != b
    ensures Catalog([Plain(a, "PI 450").(deprecated := true, replacesGuid := Some(b)), Plain(b, "PI 400")])
            == [ToFormat(Plain(b, "PI 400"), b)]
  {
    var da := Plain(a, "PI 450").(deprecated := true, replacesGuid := Some(b));
    var pb := Plain(b, "PI 400");
    var m := map[b := ToFormat(pb, b)];
    var s2 := ScanState([b], m, {a});
    assert Scan([da, pb]) == s2 by {
      var s1 := ScanState([], map[], {a});
      assert Step(EmptyScan, da) == s1 by {}
      assert Step(s1, pb) == s2 by {}
      ScanTwo(da, pb);
    }
    assert Retained([b], m, {a}) == [m[b]] by {
      assert [b][1..] == [];
    }
  }

  /** A deprecation marker retires its GUID even when a later plain block stores it again. */
  lemma DeprecationOutlivesLaterBlock(a: string)
    ensures Catalog([Plain(a, "PI 450").(deprecated := true), Plain(a, "PI 450")]) == []
  {
    var d := Plain(a, "PI 450").(deprecated := true);
    var p := Plain(a, "PI 450");
    var m := map[a := ToFormat(p, a)];
    assert Scan([d, p]) == ScanState([a], m, {a}) by {
      var s1 := ScanState([], map[], {a});
      assert Step(EmptyScan, d) == s1 by {}
      assert Step(s1, p) == ScanState([a], m, {a}) by {}
      ScanTwo(d, p);
    }
    assert Retained([a], m, {a}) == [] by {
      assert [a][1..] == [];
    }
  }

  lemma DuplicateGuidScan(a: string, b: string)
    requires a != b
    ensures Scan([Plain(a, "old"), Plain(b, "other"), Plain(a, "new")])
            == ScanState([a, b], map[a := ToFormat(Plain(a, "new"), a), b := ToFormat(Plain(b, "other"), b)], {})
  {
    var x, y, z := Plain(a, "old"), Plain(b, "other"), Plain(a, "new");
    var fx, fy, fz := ToFormat(x, a), ToFormat(y, b), ToFormat(z, a);
    var s1 := ScanState([a], map[a := fx], {});
    var s2 := ScanState([a, b], map[a := fx, b := fy], {});
    var s3 := ScanState([a, b], map[a := fz, b := fy], {});
    assert Step(EmptyScan, x) == s1 by {}
    assert Step(s1, y) == s2 by {}
    assert Step(s2, z) == s3 by {
      assert s2.byGuid[a := fz] == map[a := fz, b := fy];
    }
    ScanThree(x, y, z);
  }

  /** Two plain blocks with one GUID: the later record replaces the earlier in place. */
  lemma DuplicateGuidKeepsFirstPosition(a: string, b: string)
    requires a != b
    ensures Catalog([Plain(a, "old"), Plain(b, "other"), Plain(a, "new")])
            == [ToFormat(Plain(a, "new"), a), ToFormat(Plain(b, "other"), b)]
  {
    var fy, fz := ToFormat(Plain(b, "other"), b), ToFormat(Plain(a, "new"), a);
    DuplicateGuidScan(a, b);
    RetainedPair(a, b, map[a := fz, b := fy], {});
  }

  /** Only the format whose output resolution matches is offered for a camera of that size. */
  lemma ResolutionLookupPicksMatch(a: string, b: string)
    requires a != b
    ensures ByResolution(Catalog([Plain(a, "PI 640"), Plain(b, "PI 160").(out := Some(Resolution(160, 120)))]), 640, 480)
            == [ToFormat(Plain(a, "PI 640"), a)]
  {
    var x, y := Plain(a, "PI 640"), Plain(b, "PI 160").(out := Some(Resolution(160, 120)));
    var fx, fy := ToFormat(x, a), ToFormat(y, b);
    var m := map[a := fx, b := fy];
    assert Catalog([x, y]) == [fx, fy] by {
      assert Scan([x, y]) == ScanState([a, b], m, {}) by {
        var s1 := ScanState([a], map[a := fx], {});
        assert Step(EmptyScan, x) == s1 by {}
        assert Step(s1, y) == ScanState([a, b], m, {}) by {}
        ScanTwo(x, y);
      }
      RetainedPair(a, b, m, {});
    }
    assert ByResolution([fx, fy], 640, 480) == [fx] by {
      assert [fx, fy][..1] == [fx] && [fx][..0] == [];
      assert HasResolution(fx, 640, 480) && !HasResolution(fy, 640, 480);
      assert ByResolution([fx], 640, 480) == [fx];
    }
  }
}
