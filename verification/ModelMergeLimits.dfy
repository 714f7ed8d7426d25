/**
 Where merged files stop meaning what the originals meant: offsets beyond 32 bits, and weights that the
 loader finds by name.
 */
module ModelMergeLimits {
  import opened Common
  import Md5
  import opened ModelFile
  import opened ModelMerge

  // ----- Offsets --------------------------------------------------------------------------------

  function Buffer(name: string, size: uint32, offset: nat): Section {
    Section(Cmdbuf, name, size, offset, false, true, 0)
  }

  const NO_WEIGHTS := Section(Weight, "weight", 0, 0, false, false, 0)

  /** One compressed buffer of 2^32 - 1 zero bytes. */
  function FirstModel(): Model {
    Model([], [[Tpu(Some("a"), None)]], [NO_WEIGHTS, Buffer("a", U32 - 1, 0)], seq(U32 - 1, _ => 0))
  }

  /** Two compressed buffers, of one byte and of five bytes. */
  function SecondModel(): Model {
    Model([], [[Tpu(Some("b"), None), Tpu(Some("c"), None)]], [NO_WEIGHTS, Buffer("b", 1, 0), Buffer("c", 5, 1)],
          [0, 1, 1, 1, 1, 1])
  }

  function WrappingModels(): seq<Model> {
    [FirstModel(), SecondModel()]
  }

  /** Buffers add no weights. */
  lemma {:induction false} OnlyEmptyWeights(s: seq<Section>, body: seq<byte>)
    requires AllFit([NO_WEIGHTS] + s, body) && forall k :: 0 <= k < |s| ==> s[k].kind.Cmdbuf?
    ensures Weights([NO_WEIGHTS] + s, body) == [[]]
    decreases |s|
  {
    if s == [] {
      assert [NO_WEIGHTS] + s == [] + [NO_WEIGHTS];
      WeightsSnoc([], NO_WEIGHTS, body);
    } else {
      var front, last := s[..|s| - 1], s[|s| - 1];
      assert [NO_WEIGHTS] + s == ([NO_WEIGHTS] + front) + [last];
      WeightsSnoc([NO_WEIGHTS] + front, last, body);
      OnlyEmptyWeights(front, body);
    }
  }

  lemma FirstReadable()
    ensures Readable(FirstModel()) && ProgramsNamed(FirstModel()) && BuffersUsed(FirstModel()) && Hashable(FirstModel().sections)
    ensures Weights(FirstModel().sections, FirstModel().body) == [[]]
  {
    hide Weights;
    var m := FirstModel();
    var r := m.programs[0][0];
    assert r in m.programs[0] && Used(r) == "a";
    assert m.sections == [NO_WEIGHTS] + [m.sections[1]];
    OnlyEmptyWeights([m.sections[1]], m.body);
  }

  lemma SecondReadable()
    ensures Readable(SecondModel()) && ProgramsNamed(SecondModel()) && BuffersUsed(SecondModel()) && Hashable(SecondModel().sections)
    ensures Weights(SecondModel().sections, SecondModel().body) == [[]]
  {
    hide Weights;
    var m := SecondModel();
    var p := m.programs[0];
    assert p[0] in p && Used(p[0]) == "b" && p[1] in p && Used(p[1]) == "c";
    assert m.sections == [NO_WEIGHTS] + [m.sections[1], m.sections[2]];
    OnlyEmptyWeights([m.sections[1], m.sections[2]], m.body);
  }

  lemma EmptyWeightsAgree(f: Md5.BlockFunction, models: seq<Model>)
    requires AllReadable(models) && models != []
    requires forall i :: 0 <= i < |models| ==> Weights(models[i].sections, models[i].body) == [[]]
    ensures CollisionFree(f, models) && Nested(models)
  {
    hide Weights, Md5.Digest;
    var empty: seq<byte> := [];
    assert empty in Weights(models[0].sections, models[0].body) && WeightOf(models, empty);
    assert forall v :: WeightOf(models, v) ==> v == empty;
    assert forall x :: WeightPrefix(models, x) ==> x == empty;
  }

  lemma PairMerges(f: Md5.BlockFunction, a: Model, b: Model)
    requires Readable(a) && ProgramsNamed(a) && BuffersUsed(a) && Hashable(a.sections) && Weights(a.sections, a.body) == [[]]
    requires Readable(b) && ProgramsNamed(b) && BuffersUsed(b) && Hashable(b.sections) && Weights(b.sections, b.body) == [[]]
    requires NO_WEIGHTS in a.sections
    requires forall s :: s in a.sections || s in b.sections ==> !s.kind.Dmabuf?
    ensures var models := [a, b];
            && (forall m :: m in models ==> Readable(m) && ProgramsNamed(m)) && HasWeight(models) && OneProgramEach(models)
            && AllReadable(models) && CollisionFree(f, models)
            && !Mixed(models) && Nested(models) && AllHashable(models)
            && forall i :: 0 <= i < |models| ==> BuffersUsed(models[i])
  {
    hide Weights, ProgramsNamed, Hashable, CollisionFree, Nested;
    var models := [a, b];
    assert IsWeight(models, WeightSection(0, NO_WEIGHTS));
    EmptyWeightsAgree(f, models);
  }

  /** Two models that the tool merges, whatever the hash. */
  lemma WrappingModelsMerge(f: Md5.BlockFunction)
    ensures var models := WrappingModels();
            && (forall m :: m in models ==> Readable(m) && ProgramsNamed(m)) && HasWeight(models) && OneProgramEach(models)
            && AllReadable(models) && CollisionFree(f, models)
            && !Mixed(models) && Nested(models) && AllHashable(models)
            && forall i :: 0 <= i < |models| ==> BuffersUsed(models[i])
  {
    FirstReadable();
    SecondReadable();
    OnlyCmdbufs();
    hide FirstModel, SecondModel;
    PairMerges(f, FirstModel(), SecondModel());
  }

  lemma OnlyCmdbufs()
    ensures NO_WEIGHTS in FirstModel().sections
    ensures forall s :: s in FirstModel().sections || s in SecondModel().sections ==> !s.kind.Dmabuf?
  {
  }

  function KeptSections(c: nat): seq<Owned>
    requires c < 2
  {
    var a, b, d := Owned(0, Buffer("a", U32 - 1, 0)), Owned(1, Buffer("b", 1, 0)), Owned(1, Buffer("c", 5, 1));
    if c == 0 then [Owned(0, NO_WEIGHTS), a, b, d] else [a, Owned(1, NO_WEIGHTS), b, d]
  }

  lemma KeptTwo(m0: Model, m1: Model, c: nat)
    ensures Kept([m0, m1], c, 2) == KeptOf(m0.sections, 0, c == 0) + KeptOf(m1.sections, 1, c == 1)
  {
    hide KeptOf;
    var models := [m0, m1];
    assert Kept(models, c, 0) == [];
    assert Kept(models, c, 1) == KeptOf(m0.sections, 0, c == 0);
  }

  lemma KeptIs(c: nat)
    requires c < 2
    ensures Kept(WrappingModels(), c, 2) == KeptSections(c)
  {
    SectionsAre();
    hide FirstModel, SecondModel, KeptOf, Kept, Buffer;
    var a, b, d := Buffer("a", U32 - 1, 0), Buffer("b", 1, 0), Buffer("c", 5, 1);
    KeptTwo(FirstModel(), SecondModel(), c);
    FirstTwo(a, 0, c == 0);
    AllThree(b, d, 1, c == 1);
  }

  lemma SectionsAre()
    ensures FirstModel().sections == [NO_WEIGHTS, Buffer("a", U32 - 1, 0)]
    ensures SecondModel().sections == [NO_WEIGHTS, Buffer("b", 1, 0), Buffer("c", 5, 1)]
    ensures Buffer("a", U32 - 1, 0).kind.Cmdbuf? && Buffer("b", 1, 0).kind.Cmdbuf? && Buffer("c", 5, 1).kind.Cmdbuf?
  {
  }

  lemma AllThree(s: Section, t: Section, i: nat, weights: bool)
    requires s.kind.Cmdbuf? && t.kind.Cmdbuf?
    ensures KeptOf([NO_WEIGHTS, s, t], i, weights)
         == if weights then [Owned(i, NO_WEIGHTS), Owned(i, s), Owned(i, t)] else [Owned(i, s), Owned(i, t)]
  {
    hide KeptOf;
    FirstTwo(s, i, weights);
    assert [NO_WEIGHTS, s, t] == [NO_WEIGHTS, s] + [t];
    KeptSnoc([NO_WEIGHTS, s], t, i, weights);
  }

  lemma FirstTwo(s: Section, i: nat, weights: bool)
    requires s.kind.Cmdbuf?
    ensures KeptOf([NO_WEIGHTS, s], i, weights) == if weights then [Owned(i, NO_WEIGHTS), Owned(i, s)] else [Owned(i, s)]
  {
    assert [NO_WEIGHTS, s] == ([] + [NO_WEIGHTS]) + [s];
    KeptSnoc([], NO_WEIGHTS, i, weights);
    KeptSnoc([] + [NO_WEIGHTS], s, i, weights);
  }

  lemma Extents(c: nat)
    requires c < 2
    ensures var kept := KeptSections(c);
            Extent(kept[..3]) == U32 && Extent(kept[..2]) == U32 - 1 && Extent(kept[..1]) <= U32 - 1 && Extent(kept[..0]) == 0
            && Extent(kept) == U32 + 5
  {
    hide Extent;
    FourExtents(KeptSections(c));
  }

  lemma FourExtents(kept: seq<Owned>)
    requires |kept| == 4
    ensures Extent(kept[..0]) == 0 && Extent(kept[..1]) == kept[0].section.size
    ensures Extent(kept[..2]) == Extent(kept[..1]) + kept[1].section.size
    ensures Extent(kept[..3]) == Extent(kept[..2]) + kept[2].section.size
    ensures Extent(kept) == Extent(kept[..3]) + kept[3].section.size
  {
    ExtentUpto(kept, 1);
    ExtentUpto(kept, 2);
    ExtentUpto(kept, 3);
    ExtentUpto(kept, 4);
    assert Extent(kept[..0]) == 0;
    hide Extent;
    assert kept[..4] == kept;
  }

  lemma ExtentUpto(kept: seq<Owned>, k: nat)
    requires 0 < k <= |kept|
    ensures Extent(kept[..k]) == Extent(kept[..k - 1]) + kept[k - 1].section.size
  {
    assert kept[..k] == kept[..k - 1] + [kept[k - 1]];
    ExtentSnoc(kept[..k - 1], kept[k - 1]);
  }

  /** Whichever weights are kept, the merged file records the five-byte buffer at offset 0, true place 2^32. */
  lemma ThirdBufferWraps(c: nat, sections: seq<Section>, body: seq<byte>)
    requires c < 2 && Recorded(WrappingModels(), Kept(WrappingModels(), c, 2), sections, body, true)
    ensures !KeptFits(WrappingModels(), c)
    ensures |sections| == 4 && sections[3] == Section(Cmdbuf, Rename("c", 1), 5, 0, false, true, 0)
  {
    hide Rename, FirstModel, SecondModel;
    KeptIs(c);
    Extents(c);
    hide Extent, Kept, KeptBytes;
    var kept := KeptSections(c);
    assert kept[..|kept| - 1] == kept[..3];
    assert StandsFor(sections[3], kept, 3, true);
  }

  /** Read from there, it is five zero bytes of another model instead of its own ones. */
  lemma ThirdBufferMisread(c: nat, sections: seq<Section>, body: seq<byte>)
    requires c < 2 && Recorded(WrappingModels(), Kept(WrappingModels(), c, 2), sections, body, true)
    ensures |sections| == 4 && Fits(sections[3], body) && Bytes(sections[3], body) == [0, 0, 0, 0, 0]
    ensures Bytes(Buffer("c", 5, 1), SecondModel().body) == [1, 1, 1, 1, 1]
  {
    ThirdBufferWraps(c, sections, body);
    KeptIs(c);
    var models, kept := WrappingModels(), KeptSections(c);
    StartsWithFirst(c);
    hide KeptBytes, Kept;
    assert forall i :: 0 <= i < 5 ==> body[i] == FirstModel().body[i];
  }

  lemma StartsWithFirst(c: nat)
    requires c < 2 && AllOwned(WrappingModels(), KeptSections(c))
    ensures FirstModel().body <= KeptBytes(WrappingModels(), KeptSections(c))
  {
    var models, kept := WrappingModels(), KeptSections(c);
    PieceBytes();
    hide FirstModel, SecondModel, Buffer, Bytes;
    assert forall o :: o in kept ==> o.model < 2 && models[o.model] == if o.model == 0 then FirstModel() else SecondModel();
    FourPieces(models, kept[0], kept[1], kept[2], kept[3]);
  }

  lemma PieceBytes()
    ensures Bytes(Buffer("a", U32 - 1, 0), FirstModel().body) == FirstModel().body
    ensures Bytes(NO_WEIGHTS, FirstModel().body) == [] && Bytes(NO_WEIGHTS, SecondModel().body) == []
  {
  }

  lemma FourPieces(models: seq<Model>, o0: Owned, o1: Owned, o2: Owned, o3: Owned)
    requires AllOwned(models, [o0, o1, o2, o3])
    ensures o0.model < |models| && o1.model < |models| && Fits(o0.section, models[o0.model].body) && Fits(o1.section, models[o1.model].body)
    ensures Bytes(o0.section, models[o0.model].body) + Bytes(o1.section, models[o1.model].body) <= KeptBytes(models, [o0, o1, o2, o3])
  {
    hide KeptBytes, Bytes, AllOwned;
    var two, three := [o0, o1], [o0, o1, o2];
    assert [o0, o1, o2, o3] == three + [o3] && three == two + [o2];
    BytesSnoc(models, three, o3);
    BytesSnoc(models, two, o2);
    TwoPieces(models, o0, o1);
  }

  lemma TwoPieces(models: seq<Model>, o0: Owned, o1: Owned)
    requires AllOwned(models, [o0, o1])
    ensures o0.model < |models| && o1.model < |models| && Fits(o0.section, models[o0.model].body) && Fits(o1.section, models[o1.model].body)
    ensures KeptBytes(models, [o0, o1]) == Bytes(o0.section, models[o0.model].body) + Bytes(o1.section, models[o1.model].body)
  {
    hide KeptBytes, Bytes, AllOwned;
    var none: seq<Owned> := [];
    assert [o0, o1] == [o0] + [o1] && [o0] == none + [o0];
    BytesSnoc(models, [o0], o1);
    BytesSnoc(models, none, o0);
    NoBytes(models);
  }

  lemma NoBytes(models: seq<Model>)
    ensures KeptBytes(models, []) == []
  {
  }

  // ----- Weights by name ------------------------------------------------------------------------

  /** The loader's weight_map: the last entry of a name counts. */
  function Lookup(entries: seq<WeightInfo>, name: string): Option<(int, nat)> {
    if entries == [] then None
    else
      var last := entries[|entries| - 1];
      if last.name == name then Some((last.offset, last.size)) else Lookup(entries[..|entries| - 1], name)
  }

  lemma {:induction false} LookupFinds(entries: seq<WeightInfo>, name: string)
    ensures var r := Lookup(entries, name);
            && (r == None <==> forall e :: e in entries ==> e.name != name)
            && (r.Some? ==> exists e :: e in entries && e.name == name && r.value == (e.offset, e.size))
  {
    if entries != [] {
      var front, last := entries[..|entries| - 1], entries[|entries| - 1];
      assert forall e :: e in entries <==> e in front || e == last;
      LookupFinds(front, name);
    }
  }

  /** Every weight of every model is found, by its name, at its own range. */
  ghost predicate NamesLeadHome(models: seq<Model>, entries: seq<WeightInfo>) {
    forall w :: Listed(models, w) ==> Lookup(entries, w.name) == Some((w.offset, w.size))
  }

  /** No name is listed with two ranges. */
  ghost predicate OneRangePerName(models: seq<Model>) {
    forall v, w :: Listed(models, v) && Listed(models, w) && v.name == w.name ==> v.offset == w.offset && v.size == w.size
  }

  /** CPU routines of merged models find their own weights exactly when no name has two ranges. */
  lemma NamesLeadHomeIff(models: seq<Model>, entries: seq<WeightInfo>)
    requires WeightMapKept(models, entries)
    ensures NamesLeadHome(models, entries) <==> OneRangePerName(models)
  {
    hide Listed, Lookup;
    if OneRangePerName(models) {
      forall w | Listed(models, w)
        ensures Lookup(entries, w.name) == Some((w.offset, w.size))
      {
        assert Has(entries, w);
        LookupFinds(entries, w.name);
      }
    }
  }

  /** Two models that call different ranges "w". */
  function SharedName(): seq<Model> {
    [Model([WeightInfo("w", 0, 16, [16], 0)], [], [], []), Model([WeightInfo("w", 16, 16, [16], 0)], [], [], [])]
  }

  lemma SharedNameStrays(entries: seq<WeightInfo>)
    requires WeightMapKept(SharedName(), entries)
    ensures !NamesLeadHome(SharedName(), entries)
  {
    var models := SharedName();
    var v, w := models[0].weightMap[0], models[1].weightMap[0];
    assert v in models[0].weightMap && w in models[1].weightMap;
    assert Listed(models, v) && Listed(models, w);
    NamesLeadHomeIff(models, entries);
  }
}
