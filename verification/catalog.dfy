/** `FormatsDefParser`: loads the retained format catalog and answers the
    queries the camera session and the window make of it. */
module FormatCatalog {
  import opened Wrappers
  import opened FormatBlocks
  import opened Tokens

  /** `fmt.get('width') == width and fmt.get('height') == height`: a format
      without an `Out =` line has neither key and never matches. */
  predicate HasResolution(f: VideoFormat, width: int, height: int)
  {
    f.out == Some(Resolution(width, height))
  }

  /** The formats of `fs` at the given output resolution, in catalog order. */
  function ByResolution(fs: seq<VideoFormat>, width: int, height: int): seq<VideoFormat>
    decreases |fs|
  {
    if fs == [] then []
    else
      var f := fs[|fs| - 1];
      ByResolution(fs[..|fs| - 1], width, height) + (if HasResolution(f, width, height) then [f] else [])
  }

  lemma {:induction false} ByResolutionMembers(fs: seq<VideoFormat>, width: int, height: int)
    ensures forall f :: f in ByResolution(fs, width, height) <==> f in fs && HasResolution(f, width, height)
    decreases |fs|
  {
    if fs != [] {
      var pre := fs[..|fs| - 1];
      ByResolutionMembers(pre, width, height);
      assert fs == pre + [fs[|fs| - 1]];
    }
  }

  /** The filter commutes with concatenation, so it keeps catalog order. */
  lemma {:induction false} ByResolutionKeepsOrder(a: seq<VideoFormat>, b: seq<VideoFormat>, width: int, height: int)
    ensures ByResolution(a + b, width, height) == ByResolution(a, width, height) + ByResolution(b, width, height)
    decreases |b|
  {
    if b == [] {
      assert a + b == a;
    } else {
      var bp := b[..|b| - 1];
      ByResolutionKeepsOrder(a, bp, width, height);
      assert (a + b)[..|a + b| - 1] == a + bp;
      var last := b[|b| - 1];
      var tail := if HasResolution(last, width, height) then [last] else [];
      assert (a + b)[|a + b| - 1] == last;
      calc {
        ByResolution(a + b, width, height);
        ByResolution(a + bp, width, height) + tail;
        ByResolution(a, width, height) + ByResolution(bp, width, height) + tail;
        ByResolution(a, width, height) + (ByResolution(bp, width, height) + tail);
      }
    }
  }

  // ---------------------------------------------------------------------------
  // Grouping by model: the first whitespace-separated word of the name.

  /** The model a named format belongs to, `None` when its name is all whitespace. */
  function ModelOf(f: VideoFormat): Option<string>
    requires f.name.Some?
  {
    FirstToken(f.name.value)
  }

  predicate InModel(f: VideoFormat, model: string)
  {
    f.name.Some? && ModelOf(f) == Some(model)
  }

  /** The model word of every named format that has one, in catalog order, repeats included. */
  function ModelNames(fs: seq<VideoFormat>): seq<string>
    decreases |fs|
  {
    if fs == [] then []
    else
      var f := fs[|fs| - 1];
      ModelNames(fs[..|fs| - 1]) + (if f.name.Some? && ModelOf(f).Some? then [ModelOf(f).value] else [])
  }

  /** The formats of `fs` that belong to `model`, in catalog order. */
  function WithModel(fs: seq<VideoFormat>, model: string): seq<VideoFormat>
    decreases |fs|
  {
    if fs == [] then []
    else
      var f := fs[|fs| - 1];
      WithModel(fs[..|fs| - 1], model) + (if InModel(f, model) then [f] else [])
  }

  /** A Python dict from model word to list of formats: its keys in insertion order and its contents. */
  datatype Grouping = Grouping(models: seq<string>, groups: map<string, seq<VideoFormat>>)

  /** Appends `f` to the list of `model`, opening the list at the end when it is new. */
  function AddToGroup(g: Grouping, model: string, f: VideoFormat): Grouping
  {
    if model in g.groups then Grouping(g.models, g.groups[model := g.groups[model] + [f]])
    else Grouping(g.models + [model], g.groups[model := [f]])
  }

  /** The dictionary the grouping loop leaves after `fs`; `None` when `fmt['name']`
      raises `KeyError` because some format has no name. */
  function GroupByModel(fs: seq<VideoFormat>): Option<Grouping>
    decreases |fs|
  {
    if fs == [] then Some(Grouping([], map[]))
    else
      var f := fs[|fs| - 1];
      match GroupByModel(fs[..|fs| - 1])
      case None => None
      case Some(g) =>
        if f.name.None? then None
        else match ModelOf(f)
          case None => Some(g)
          case Some(model) => Some(AddToGroup(g, model, f))
  }

  /** One iteration of the grouping loop, for a named format. */
  lemma GroupByModelStep(fs: seq<VideoFormat>, i: int)
    requires 0 <= i < |fs| && GroupByModel(fs[..i]).Some? && fs[i].name.Some?
    ensures GroupByModel(fs[..i + 1]) ==
      match ModelOf(fs[i])
      case None => GroupByModel(fs[..i])
      case Some(model) => Some(AddToGroup(GroupByModel(fs[..i]).value, model, fs[i]))
  {
    assert fs[..i + 1][..i] == fs[..i];
  }

  lemma {:induction false} GroupingFailsIffNameless(fs: seq<VideoFormat>)
    ensures GroupByModel(fs).None? <==> exists k :: 0 <= k < |fs| && fs[k].name.None?
    decreases |fs|
  {
    if fs != [] {
      var n := |fs| - 1;
      var pre := fs[..n];
      GroupingFailsIffNameless(pre);
      if exists k :: 0 <= k < n && pre[k].name.None? {
        var k :| 0 <= k < n && pre[k].name.None?;
        assert fs[k] == pre[k];
        assert GroupByModel(fs).None?;
      } else if fs[n].name.None? {
        assert GroupByModel(fs).None?;
      } else {
        forall k | 0 <= k < |fs| ensures fs[k].name.Some? {
          if k < n {
            assert fs[k] == pre[k];
          }
        }
        assert GroupByModel(fs).Some? by {
          assert GroupByModel(pre).Some?;
        }
      }
    }
  }

  /** A successful grouping: its keys are the model words in first-seen order,
      and each group holds exactly that model's formats in catalog order. */
  ghost predicate GroupsExactly(fs: seq<VideoFormat>, g: Grouping)
  {
    && g.models == Dedup(ModelNames(fs))
    && (forall m :: m in g.groups <==> m in g.models)
    && (forall m :: m in g.groups ==> g.groups[m] == WithModel(fs, m))
  }

  lemma {:induction false} WithModelEmpty(fs: seq<VideoFormat>, model: string)
    requires model !in ModelNames(fs)
    ensures WithModel(fs, model) == []
    decreases |fs|
  {
    if fs != [] {
      WithModelEmpty(fs[..|fs| - 1], model);
    }
  }

  lemma {:induction false} GroupingSpec(fs: seq<VideoFormat>)
    requires GroupByModel(fs).Some?
    ensures GroupsExactly(fs, GroupByModel(fs).value)
    decreases |fs|
  {
    if fs != [] {
      var n := |fs| - 1;
      var pre, f := fs[..n], fs[n];
      var g0 := GroupByModel(pre).value;
      var g := GroupByModel(fs).value;
      GroupingSpec(pre);
      var names := ModelNames(pre);
      assert f.name.Some?;
      if ModelOf(f).None? {
        assert g == g0;
        assert ModelNames(fs) == names;
        forall m | m in g.groups ensures g.groups[m] == WithModel(fs, m) {
          assert !InModel(f, m);
        }
      } else {
        var model := ModelOf(f).value;
        assert g == AddToGroup(g0, model, f);
        assert ModelNames(fs) == names + [model];
        assert (names + [model])[..|names|] == names;
        assert g.models == Dedup(ModelNames(fs)) by {
          assert model in g0.groups <==> model in Dedup(names);
        }
        if model !in names {
          WithModelEmpty(pre, model);
        }
        forall m | m in g.groups ensures g.groups[m] == WithModel(fs, m) {
          if m != model {
            assert !InModel(f, m);
            assert g.groups[m] == g0.groups[m];
          }
        }
      }
    }
  }

  lemma {:induction false} WithModelMembers(fs: seq<VideoFormat>, model: string)
    ensures forall f :: f in WithModel(fs, model) <==> f in fs && InModel(f, model)
    decreases |fs|
  {
    if fs != [] {
      var pre := fs[..|fs| - 1];
      WithModelMembers(pre, model);
      assert fs == pre + [fs[|fs| - 1]];
    }
  }

  /** Every format with a model word lands in the group of that word and in no other. */
  lemma GroupingPartitions(fs: seq<VideoFormat>, f: VideoFormat, model: string)
    requires GroupByModel(fs).Some? && f in fs && InModel(f, model)
    ensures model in GroupByModel(fs).value.groups && f in GroupByModel(fs).value.groups[model]
    ensures forall m :: m in GroupByModel(fs).value.groups && f in GroupByModel(fs).value.groups[m] ==> m == model
  {
    var g := GroupByModel(fs).value;
    GroupingSpec(fs);
    WithModelMembers(fs, model);
    var k :| 0 <= k < |fs| && fs[k] == f;
    ModelNamesCover(fs, k);
    forall m | m in g.groups && f in g.groups[m] ensures m == model {
      WithModelMembers(fs, m);
    }
  }

  lemma {:induction false} ModelNamesCover(fs: seq<VideoFormat>, k: int)
    requires 0 <= k < |fs| && fs[k].name.Some? && ModelOf(fs[k]).Some?
    ensures ModelOf(fs[k]).value in ModelNames(fs)
    decreases |fs|
  {
    var n := |fs| - 1;
    if k < n {
      var pre := fs[..n];
      var f := fs[k];
      assert pre[k] == f;
      ModelNamesCover(pre, k);
      assert ModelOf(f).value in ModelNames(pre);
      ModelNamesPrefix(fs);
    } else {
      ModelNamesLast(fs);
    }
  }

  lemma ModelNamesPrefix(fs: seq<VideoFormat>)
    requires fs != []
    ensures forall m :: m in ModelNames(fs[..|fs| - 1]) ==> m in ModelNames(fs)
  {
  }

  lemma ModelNamesLast(fs: seq<VideoFormat>)
    requires fs != [] && fs[|fs| - 1].name.Some? && ModelOf(fs[|fs| - 1]).Some?
    ensures ModelOf(fs[|fs| - 1]).value in ModelNames(fs)
  {
  }

  // ---------------------------------------------------------------------------

  /** The parser object: `formats` is the retained catalog, reassigned by parsing. */
  class FormatsDefParser {
    var formats: seq<VideoFormat>

    /** `content` is the block list of the file; `None` when reading or parsing
        it raises, which the source catches, leaving the catalog empty. */
    constructor (content: Option<seq<Block>>)
      ensures formats == if content.Some? then Catalog(content.value) else []
    {
      formats := [];
      new;
      ParseFormatsFile(content);
    }

    method ParseFormatsFile(content: Option<seq<Block>>)
      modifies this
      ensures formats == if content.Some? then Catalog(content.value) else old(formats)
    {
      if content.None? {
        return;
      }
      var blocks := content.value;
      var formatsByGuid: map<string, VideoFormat> := map[];
      var guidOrder: seq<string> := [];
      var deprecatedGuids: set<string> := {};
      for i := 0 to |blocks|
        invariant ScanState(guidOrder, formatsByGuid, deprecatedGuids) == Scan(blocks[..i])
      {
        var block := blocks[i];
        assert blocks[..i + 1][..i] == blocks[..i];
        if block.guid.None? {
          continue;
        }
        var guid := block.guid.value;
        if block.deprecated {
          deprecatedGuids := deprecatedGuids + {guid};
          continue;
        }
        if block.replacesGuid.Some? {
          deprecatedGuids := deprecatedGuids + {block.replacesGuid.value};
        }
        if guid !in formatsByGuid {
          guidOrder := guidOrder + [guid];
        }
        formatsByGuid := formatsByGuid[guid := ToFormat(block, guid)];
      }
      assert blocks[..|blocks|] == blocks;
      formats := Retained(guidOrder, formatsByGuid, deprecatedGuids);
    }

    method GetFormatsByResolution(width: int, height: int) returns (matching: seq<VideoFormat>)
      ensures matching == ByResolution(formats, width, height)
      ensures forall f :: f in matching <==> f in formats && HasResolution(f, width, height)
    {
      matching := [];
      for i := 0 to |formats|
        invariant matching == ByResolution(formats[..i], width, height)
      {
        var f := formats[i];
        assert formats[..i + 1][..i] == formats[..i];
        if HasResolution(f, width, height) {
          matching := matching + [f];
        }
      }
      assert formats[..|formats|] == formats;
      ByResolutionMembers(formats, width, height);
    }

    method GetAllFormats() returns (all: seq<VideoFormat>)
      ensures all == formats
    {
      all := formats;
    }

    method GetFormatsGroupedByModel() returns (grouped: Option<Grouping>)
      ensures grouped == GroupByModel(formats)
      ensures grouped.None? <==> exists k :: 0 <= k < |formats| && formats[k].name.None?
      ensures grouped.Some? ==> GroupsExactly(formats, grouped.value)
    {
      GroupingFailsIffNameless(formats);
      var models: seq<string> := [];
      var groups: map<string, seq<VideoFormat>> := map[];
      for i := 0 to |formats|
        invariant GroupByModel(formats[..i]) == Some(Grouping(models, groups))
      {
        var f := formats[i];
        assert formats[..i + 1][..i] == formats[..i];
        if f.name.None? {
          assert formats[i].name.None?;
          return None;
        }
        var parts := FirstToken(f.name.value);
        GroupByModelStep(formats, i);
        if parts.Some? {
          var model := parts.value;
          if model !in groups {
            // a new model word opens its list, at the end of the key order
            models := models + [model];
            groups := groups[model := [f]];
          } else {
            groups := groups[model := groups[model] + [f]];
          }
        }
      }
      assert formats[..|formats|] == formats;
      grouped := Some(Grouping(models, groups));
      GroupingSpec(formats);
    }
  }
}
