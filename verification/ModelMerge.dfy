/**
 Merging cvimodel files (tool/cvimodel_tool.cpp): programs are copied with their buffer sections
 renamed per model, sections are re-laid out one after another, and of all the weight sections only
 those of the model owning the largest one are kept, after a chained hash comparison of prefixes.
 */
module ModelMerge {
  import opened Common
  import Md5
  import opened ModelFile

  const U32 := 0x1_0000_0000

  /** The tool's refusals, and sizes beyond an int, on which it is undefined. */
  datatype MergeError = ProgramCount | MixedBuffers | WeightMismatch | UnnamedSection | SizeBeyondInt

  datatype Result<T> = Ok(value: T) | Err(error: MergeError)

  // ----- The weight map -------------------------------------------------------------------------

  predicate SameKey(a: WeightInfo, b: WeightInfo) {
    a.name == b.name && a.offset == b.offset && a.size == b.size
  }

  ghost predicate Listed(models: seq<Model>, w: WeightInfo) {
    exists i :: 0 <= i < |models| && w in models[i].weightMap
  }

  ghost predicate Has(out: seq<WeightInfo>, w: WeightInfo) {
    exists o :: o in out && SameKey(o, w)
  }

  lemma HasSnoc(out: seq<WeightInfo>, x: WeightInfo)
    ensures forall w :: Has(out, w) || SameKey(x, w) ==> Has(out + [x], w)
  {
    assert forall o :: o in out || o == x ==> o in out + [x];
  }

  /** All weight maps, one after another. */
  function AllWeights(models: seq<Model>): seq<WeightInfo> {
    if models == [] then [] else AllWeights(models[..|models| - 1]) + models[|models| - 1].weightMap
  }

  /** The first entry of every key, in order of appearance. */
  ghost function FirstOfEach(ws: seq<WeightInfo>): seq<WeightInfo> {
    if ws == [] then []
    else
      var front, w := FirstOfEach(ws[..|ws| - 1]), ws[|ws| - 1];
      if Has(front, w) then front else front + [w]
  }

  lemma FirstSnoc(ws: seq<WeightInfo>, w: WeightInfo)
    ensures FirstOfEach(ws + [w]) == if Has(FirstOfEach(ws), w) then FirstOfEach(ws) else FirstOfEach(ws) + [w]
  {
    hide Has;
    assert (ws + [w])[..|ws|] == ws;
  }

  /** Every key once; each entry listed is one of the given, and no given one of its key comes before it. */
  lemma {:induction false} FirstOfEachMeans(ws: seq<WeightInfo>)
    ensures var out := FirstOfEach(ws);
            && (forall w :: w in ws ==> Has(out, w))
            && (forall o :: o in out ==> exists k :: 0 <= k < |ws| && ws[k] == o && forall j :: 0 <= j < k ==> !SameKey(ws[j], o))
            && (forall a, b :: 0 <= a < b < |out| ==> !SameKey(out[a], out[b]))
  {
    if ws != [] {
      var front, w := ws[..|ws| - 1], ws[|ws| - 1];
      FirstOfEachMeans(front);
      hide FirstOfEach;
      FirstSnoc(front, w);
      assert ws == front + [w];
      FirstStep(front, FirstOfEach(front), w);
    }
  }

  lemma FirstStep(ws: seq<WeightInfo>, out: seq<WeightInfo>, w: WeightInfo)
    requires forall v :: v in ws ==> Has(out, v)
    requires forall o :: o in out ==> exists k :: 0 <= k < |ws| && ws[k] == o && forall j :: 0 <= j < k ==> !SameKey(ws[j], o)
    requires forall a, b :: 0 <= a < b < |out| ==> !SameKey(out[a], out[b])
    ensures var ws', out' := ws + [w], if Has(out, w) then out else out + [w];
            && (forall v :: v in ws' ==> Has(out', v))
            && (forall o :: o in out' ==> exists k :: 0 <= k < |ws'| && ws'[k] == o && forall j :: 0 <= j < k ==> !SameKey(ws'[j], o))
            && (forall a, b :: 0 <= a < b < |out'| ==> !SameKey(out'[a], out'[b]))
  {
    HasSnoc(out, w);
    var ws', out' := ws + [w], if Has(out, w) then out else out + [w];
    forall o | o in out'
      ensures exists k :: 0 <= k < |ws'| && ws'[k] == o && forall j :: 0 <= j < k ==> !SameKey(ws'[j], o)
    {
      if o in out {
        var k :| 0 <= k < |ws| && ws[k] == o && forall j :: 0 <= j < k ==> !SameKey(ws[j], o);
        assert ws'[k] == o;
      } else {
        assert ws'[|ws|] == o;
        forall j | 0 <= j < |ws|
          ensures !SameKey(ws'[j], o)
        {
          assert ws[j] in ws;
        }
      }
    }
  }

  lemma {:induction false} AllWeightsListed(models: seq<Model>, w: WeightInfo)
    ensures w in AllWeights(models) <==> Listed(models, w)
  {
    if models != [] {
      var front := models[..|models| - 1];
      AllWeightsListed(front, w);
      assert forall i :: 0 <= i < |front| ==> models[i] == front[i];
    }
  }

  /** cloneWeightMap: every weight once, recognised by name, offset and size. */
  method CloneWeightMap(models: seq<Model>) returns (out: seq<WeightInfo>)
    ensures out == FirstOfEach(AllWeights(models))
    ensures WeightMapKept(models, out)
  {
    hide Has, FirstOfEach, WeightMapKept;
    out := [];
    NoEntries();
    for i := 0 to |models|
      invariant out == FirstOfEach(AllWeights(models[..i]))
    {
      out := AddWeights(out, models[i].weightMap, AllWeights(models[..i]));
      assert models[..i + 1][..i] == models[..i];
    }
    assert models[..|models|] == models;
    ListedOnce(models);
  }

  /** The weights of one more model. */
  method AddWeights(out0: seq<WeightInfo>, ws: seq<WeightInfo>, ghost before: seq<WeightInfo>) returns (out: seq<WeightInfo>)
    requires out0 == FirstOfEach(before)
    ensures out == FirstOfEach(before + ws)
  {
    hide Has, FirstOfEach;
    out := out0;
    assert before + ws[..0] == before;
    for j := 0 to |ws|
      invariant out == FirstOfEach(before + ws[..j])
    {
      FirstSnoc(before + ws[..j], ws[j]);
      assert before + ws[..j + 1] == before + ws[..j] + [ws[j]];
      var redundant := Contains(out, ws[j]);
      if !redundant {
        out := out + [ws[j]];
      }
    }
    assert ws[..|ws|] == ws;
  }

  lemma NoEntries()
    ensures FirstOfEach([]) == []
  {
  }

  lemma ListedOnce(models: seq<Model>)
    ensures WeightMapKept(models, FirstOfEach(AllWeights(models)))
  {
    hide Has, FirstOfEach, Listed;
    FirstOfEachMeans(AllWeights(models));
    forall w
      ensures w in AllWeights(models) <==> Listed(models, w)
    {
      AllWeightsListed(models, w);
    }
  }

  method Contains(out: seq<WeightInfo>, w: WeightInfo) returns (redundant: bool)
    ensures redundant <==> Has(out, w)
  {
    for k := 0 to |out|
      invariant forall a :: 0 <= a < k ==> !SameKey(out[a], w)
    {
      if SameKey(out[k], w) {
        return true;
      }
    }
    return false;
  }

  // ----- Programs -------------------------------------------------------------------------------

  /** A TPU routine names its buffer; the tool dereferences that name. */
  predicate Named(r: Routine) {
    r.Tpu? ==> r.cmdbuf.Some? || r.dmabuf.Some?
  }

  predicate ProgramsNamed(m: Model) {
    forall p, r :: p in m.programs && r in p ==> Named(r)
  }

  function RenameRoutine(r: Routine, index: nat): Routine
    requires Named(r)
  {
    if r.Cpu? then r
    else if r.cmdbuf.Some? then Tpu(Some(Rename(r.cmdbuf.value, index)), None)
    else Tpu(None, Some(Rename(r.dmabuf.value, index)))
  }

  ghost predicate Uses(program: seq<Routine>, name: string) {
    exists r :: r in program && r.Tpu? && Named(r) && Used(r) == name
  }

  ghost predicate RenamedProgram(program: seq<Routine>, index: nat, out: seq<Routine>) {
    && |out| == |program|
    && forall j :: 0 <= j < |program| ==> Named(program[j]) && out[j] == RenameRoutine(program[j], index)
  }

  ghost predicate NamesOf(program: seq<Routine>, index: nat, names: map<string, string>) {
    && (forall n :: n in names <==> Uses(program, n))
    && forall n :: n in names ==> names[n] == Rename(n, index)
  }

  /** cloneRoutines with renaming. */
  method CloneRoutines(program: seq<Routine>, index: nat) returns (out: seq<Routine>, names: map<string, string>)
    requires forall r :: r in program ==> Named(r)
    ensures RenamedProgram(program, index, out)
    ensures NamesOf(program, index, names)
  {
    out, names := [], map[];
    for j := 0 to |program|
      invariant RenamedProgram(program[..j], index, out)
      invariant NamesOf(program[..j], index, names)
    {
      var r := program[j];
      assert program[..j + 1] == program[..j] + [r];
      out := out + [RenameRoutine(r, index)];
      if r.Tpu? && Used(r) !in names {
        names := names[Used(r) := Rename(Used(r), index)];
      }
    }
    assert program[..|program|] == program;
  }

  predicate OneProgramEach(models: seq<Model>) {
    forall i :: 0 <= i < |models| ==> |models[i].programs| == 1
  }

  ghost predicate AllRenamed(models: seq<Model>, programs: seq<seq<Routine>>, maps: seq<map<string, string>>) {
    && |programs| == |maps| <= |models|
    && forall k :: 0 <= k < |programs| ==>
         && |models[k].programs| == 1
         && RenamedProgram(models[k].programs[0], k, programs[k])
         && NamesOf(models[k].programs[0], k, maps[k])
  }

  /** A program and the model it comes from. */
  datatype Source = Source(model: nat, program: seq<Routine>)

  /** The programs of all models, in order. */
  function Sources(models: seq<Model>): seq<Source> {
    if models == [] then []
    else
      var i := |models| - 1;
      Sources(models[..i]) + SourcesOf(models[i].programs, i)
  }

  function SourcesOf(programs: seq<seq<Routine>>, i: nat): (r: seq<Source>)
    ensures |r| == |programs| && forall j :: 0 <= j < |r| ==> r[j] == Source(i, programs[j])
  {
    seq(|programs|, j requires 0 <= j < |programs| => Source(i, programs[j]))
  }

  /** Program by program, with the index of its own model in the names. */
  ghost predicate Cloned(sources: seq<Source>, programs: seq<seq<Routine>>) {
    |programs| == |sources| && forall k :: 0 <= k < |sources| ==> RenamedProgram(sources[k].program, sources[k].model, programs[k])
  }

  ghost predicate AllNames(sources: seq<Source>, maps: seq<map<string, string>>) {
    |maps| == |sources| && forall k :: 0 <= k < |sources| ==> NamesOf(sources[k].program, sources[k].model, maps[k])
  }

  /** clonePrograms */
  method ClonePrograms(models: seq<Model>) returns (programs: seq<seq<Routine>>, maps: seq<map<string, string>>)
    requires forall m :: m in models ==> ProgramsNamed(m)
    ensures Cloned(Sources(models), programs) && AllNames(Sources(models), maps)
  {
    hide RenamedProgram, NamesOf, SourcesOf;
    programs, maps := [], [];
    for i := 0 to |models|
      invariant Cloned(Sources(models[..i]), programs) && AllNames(Sources(models[..i]), maps)
    {
      var ps := models[i].programs;
      ghost var before := Sources(models[..i]);
      for j := 0 to |ps|
        invariant Cloned(before + SourcesOf(ps, i)[..j], programs) && AllNames(before + SourcesOf(ps, i)[..j], maps)
      {
        assert models[i] in models && ps[j] in ps;
        var routines, names := CloneRoutines(ps[j], i);
        programs, maps := programs + [routines], maps + [names];
      }
      assert models[..i + 1][..i] == models[..i] && SourcesOf(ps, i)[..|ps|] == SourcesOf(ps, i);
    }
    assert models[..|models|] == models;
  }

  lemma {:induction false} OneSourceEach(models: seq<Model>, k: nat)
    requires OneProgramEach(models)
    ensures |Sources(models)| == |models|
    ensures k < |models| ==> Sources(models)[k] == Source(k, models[k].programs[0])
  {
    if models != [] {
      OneSourceEach(models[..|models| - 1], if k < |models| - 1 then k else 0);
    }
  }

  lemma ClonedEach(models: seq<Model>, programs: seq<seq<Routine>>, maps: seq<map<string, string>>)
    requires OneProgramEach(models) && Cloned(Sources(models), programs) && AllNames(Sources(models), maps)
    ensures |maps| == |models| && AllRenamed(models, programs, maps)
  {
    hide RenamedProgram, NamesOf, Sources;
    OneSourceEach(models, 0);
    forall k: nat | k < |models|
      ensures RenamedProgram(models[k].programs[0], k, programs[k]) && NamesOf(models[k].programs[0], k, maps[k])
    {
      OneSourceEach(models, k);
    }
  }

  // ----- Comparing the weights ------------------------------------------------------------------

  datatype WeightSection = WeightSection(id: nat, section: Section)

  /** The files are complete, and weights are stored uncompressed. */
  predicate Readable(m: Model) {
    && AllFit(m.sections, m.body)
    && forall s :: s in m.sections && s.kind.Weight? ==> !s.compress
  }

  predicate IsWeight(models: seq<Model>, w: WeightSection) {
    w.id < |models| && w.section in models[w.id].sections && w.section.kind.Weight?
  }

  ghost predicate Mixed(models: seq<Model>) {
    && (exists i, s :: 0 <= i < |models| && s in models[i].sections && s.kind.Cmdbuf?)
    && (exists i, s :: 0 <= i < |models| && s in models[i].sections && s.kind.Dmabuf?)
  }

  /** The first loop of cloneSections. */
  method CollectWeights(models: seq<Model>) returns (ws: seq<WeightSection>, mixed: bool)
    ensures forall w :: w in ws <==> IsWeight(models, w)
    ensures mixed <==> Mixed(models)
  {
    ws := [];
    var cmdbuf, dmabuf := false, false;
    for i := 0 to |models|
      invariant forall w :: w in ws <==> IsWeight(models, w) && w.id < i
      invariant cmdbuf <==> exists k, s :: 0 <= k < i && s in models[k].sections && s.kind.Cmdbuf?
      invariant dmabuf <==> exists k, s :: 0 <= k < i && s in models[k].sections && s.kind.Dmabuf?
    {
      var found, c, d := WeightsOf(models[i].sections, i);
      ws, cmdbuf, dmabuf := ws + found, cmdbuf || c, dmabuf || d;
    }
    mixed := cmdbuf && dmabuf;
  }

  method WeightsOf(sections: seq<Section>, id: nat) returns (ws: seq<WeightSection>, cmdbuf: bool, dmabuf: bool)
    ensures forall w :: w in ws <==> w.id == id && w.section in sections && w.section.kind.Weight?
    ensures cmdbuf <==> exists s :: s in sections && s.kind.Cmdbuf?
    ensures dmabuf <==> exists s :: s in sections && s.kind.Dmabuf?
  {
    ws, cmdbuf, dmabuf := [], false, false;
    for j := 0 to |sections|
      invariant forall w :: w in ws <==> w.id == id && w.section in sections[..j] && w.section.kind.Weight?
      invariant cmdbuf <==> exists s :: s in sections[..j] && s.kind.Cmdbuf?
      invariant dmabuf <==> exists s :: s in sections[..j] && s.kind.Dmabuf?
    {
      var s := sections[j];
      assert sections[..j + 1] == sections[..j] + [s];
      if s.kind.Weight? {
        ws := ws + [WeightSection(id, s)];
      } else if s.kind.Cmdbuf? {
        cmdbuf := true;
      } else if s.kind.Dmabuf? {
        dmabuf := true;
      }
    }
    assert sections[..|sections|] == sections;
  }

  ghost predicate Ascending(ws: seq<WeightSection>) {
    forall a, b :: 0 <= a < b < |ws| ==> ws[a].section.size <= ws[b].section.size
  }

  /** Some ascending order; nothing below depends on how ties are broken. */
  method SortBySize(ws: seq<WeightSection>) returns (r: seq<WeightSection>)
    ensures |r| == |ws| && (forall w :: w in r <==> w in ws) && Ascending(r)
  {
    hide Ascending;
    AscendingNone();
    r := [];
    for i := 0 to |ws|
      invariant |r| == i && Ascending(r)
      invariant forall w :: w in r <==> w in ws[..i]
    {
      var k := 0;
      while k < |r| && r[k].section.size <= ws[i].section.size
        invariant k <= |r| && forall a :: 0 <= a < k ==> r[a].section.size <= ws[i].section.size
      {
        k := k + 1;
      }
      assert ws[..i + 1] == ws[..i] + [ws[i]];
      InsertKeepsOrder(r, k, ws[i]);
      r := r[..k] + [ws[i]] + r[k..];
    }
    assert ws[..|ws|] == ws;
  }

  lemma AscendingNone()
    ensures Ascending([])
  {
  }

  lemma InsertKeepsOrder(r: seq<WeightSection>, k: nat, w: WeightSection)
    requires k <= |r| && Ascending(r)
    requires forall a :: 0 <= a < k ==> r[a].section.size <= w.section.size
    requires k < |r| ==> w.section.size <= r[k].section.size
    ensures Ascending(r[..k] + [w] + r[k..])
    ensures forall v :: v in r[..k] + [w] + r[k..] <==> v in r || v == w
  {
    assert r == r[..k] + r[k..];
  }

  function Content(models: seq<Model>, w: WeightSection): (r: seq<byte>)
    requires IsWeight(models, w) && forall m :: m in models ==> Readable(m)
    ensures |r| == w.section.size
  {
    assert models[w.id] in models && Readable(models[w.id]) && Fits(w.section, models[w.id].body);
    Bytes(w.section, models[w.id].body)
  }

  function Contents(models: seq<Model>, ws: seq<WeightSection>): (r: seq<seq<byte>>)
    requires (forall w :: w in ws ==> IsWeight(models, w)) && forall m :: m in models ==> Readable(m)
    ensures |r| == |ws| && forall k :: 0 <= k < |r| ==> ws[k] in ws && r[k] == Content(models, ws[k])
  {
    seq(|ws|, k requires 0 <= k < |ws| => assert ws[k] in ws; Content(models, ws[k]))
  }

  ghost predicate Growing(c: seq<seq<byte>>) {
    forall a, b :: 0 <= a < b < |c| ==> |c[a]| <= |c[b]|
  }

  /** What the tool compares: each section's first bytes against the whole section before it. */
  ghost predicate HashChain(f: Md5.BlockFunction, c: seq<seq<byte>>)
    requires Growing(c)
  {
    forall k, j :: 0 <= j < |c| && 0 <= k < j && j == k + 1 ==> Md5.Digest(f, c[j][..|c[k]|]) == Md5.Digest(f, c[k])
  }

  /** No two prefixes of these strings collide. */
  ghost predicate NoCollision(f: Md5.BlockFunction, c: seq<seq<byte>>) {
    forall x, y :: PrefixOfSome(x, c) && PrefixOfSome(y, c) && Md5.Digest(f, x) == Md5.Digest(f, y) ==> x == y
  }

  ghost predicate PrefixOfSome(x: seq<byte>, c: seq<seq<byte>>) {
    exists v :: v in c && x <= v
  }

  /** The chained comparison of neighbours decides whether every string is a prefix of the longest. */
  lemma HashChainIff(f: Md5.BlockFunction, c: seq<seq<byte>>)
    requires c != [] && Growing(c) && NoCollision(f, c)
    ensures HashChain(f, c) <==> forall v :: v in c ==> v <= c[|c| - 1]
  {
    if HashChain(f, c) {
      forall k: nat | k < |c|
        ensures c[k] <= c[|c| - 1]
      {
        ChainReaches(f, c, k, |c| - 1);
      }
    }
    if forall v :: v in c ==> v <= c[|c| - 1] {
      forall k, j | 0 <= j < |c| && 0 <= k < j && j == k + 1
        ensures Md5.Digest(f, c[j][..|c[k]|]) == Md5.Digest(f, c[k])
      {
        assert c[k] in c && c[j] in c;
        assert c[j][..|c[k]|] == c[k];
      }
    }
  }

  lemma {:induction false} ChainReaches(f: Md5.BlockFunction, c: seq<seq<byte>>, k: nat, j: nat)
    requires k <= j < |c| && Growing(c) && NoCollision(f, c) && HashChain(f, c)
    ensures c[k] <= c[j]
    decreases j
  {
    hide Md5.Digest;
    if k < j {
      ChainReaches(f, c, k, j - 1);
      var x, y := c[j][..|c[j - 1]|], c[j - 1];
      assert Md5.Digest(f, x) == Md5.Digest(f, y);
      assert c[j] in c && x <= c[j] && y in c && y <= y;
      assert PrefixOfSome(x, c) && PrefixOfSome(y, c);
    }
  }

  /** The second loop of cloneSections: sizes become ints, and every one but the first moves up one place. */
  method ShiftSizes(c: seq<seq<byte>>) returns (size: seq<int32>)
    requires c != []
    ensures |size| == |c| && size[0] == Wrap(|c[0]|)
    ensures forall k, j :: 0 <= j < |c| && 0 <= k < j && j == k + 1 ==> size[j] == Wrap(|c[k]|)
  {
    hide Wrap;
    size := seq(|c|, k requires 0 <= k < |c| => Wrap(|c[k]|));
    var i := |c| - 1;
    while i > 0
      invariant 0 <= i < |c| == |size|
      invariant forall k :: 0 <= k <= i ==> size[k] == Wrap(|c[k]|)
      invariant forall k :: i < k < |c| ==> size[k] == Wrap(|c[k - 1]|)
    {
      size := size[i := size[i - 1]];
      i := i - 1;
    }
  }

  predicate FitsInt(n: int) {
    n <= INT_MAX
  }

  ghost predicate AllFitInt(c: seq<seq<byte>>) {
    forall k :: 0 <= k < |c| ==> FitsInt(|c[k]|)
  }

  datatype Comparison = Same | Different | Undefined

  /**
   The third loop: a section's first bytes against the whole section before it, by hash. It goes
   through exactly when all hashes agree and every size is an int.
   */
  method CompareWeights(f: Md5.BlockFunction, c: seq<seq<byte>>) returns (r: Comparison)
    requires c != [] && Growing(c) && forall k :: 0 <= k < |c| ==> |c[k]| < U32
    ensures r == Same <==> HashChain(f, c) && AllFitInt(c)
    ensures r == Different ==> !HashChain(f, c)
    ensures r == Undefined ==> !AllFitInt(c)
  {
    hide Md5.Digest, Wrap;
    var size := ShiftSizes(c);
    var weightMd5: seq<byte> := [];
    for i := 0 to |c|
      invariant i == 0 <==> weightMd5 == []
      invariant i > 0 ==> weightMd5 == Md5.Digest(f, c[i - 1])
      invariant forall k :: 0 <= k < i ==> FitsInt(|c[k]|)
      invariant forall k, j :: 0 <= j < i && 0 <= k < j && j == k + 1 ==> Md5.Digest(f, c[j][..|c[k]|]) == Md5.Digest(f, c[k])
    {
      var k := if i == 0 then 0 else i - 1;
      assert size[i] == Wrap(|c[k]|) && |c[k]| <= |c[i]|;
      var md5 := HashFirst(f, c[i], |c[k]|, size[i]);
      if md5 == None {
        return Undefined;
      }
      if weightMd5 == [] {
        weightMd5 := md5.value;
        assert c[i][..|c[i]|] == c[i];
      } else if weightMd5 != md5.value {
        assert Md5.Digest(f, c[i][..|c[k]|]) != Md5.Digest(f, c[k]);
        return Different;
      } else {
        var whole := HashFirst(f, c[i], |c[i]|, Wrap(|c[i]|));
        if whole == None {
          return Undefined;
        }
        weightMd5 := whole.value;
        assert c[i][..|c[i]|] == c[i];
      }
    }
    return Same;
  }

  /** The hash of the first `n` bytes, for an `n` that is passed on as an int. */
  method HashFirst(f: Md5.BlockFunction, bytes: seq<byte>, n: nat, size: int32) returns (md5: Option<seq<byte>>)
    requires n <= |bytes| && n < U32 && size == Wrap(n)
    ensures md5.Some? <==> FitsInt(n)
    ensures md5.Some? ==> md5.value == Md5.Digest(f, bytes[..n]) && md5.value != []
  {
    md5 := Md5.SectionMd5(f, bytes, size);
    Md5.DigestLength(f, bytes[..n]);
  }

  // ----- Laying out the sections ----------------------------------------------------------------

  /** The sections of model `k` that come before section `j` of model `i`. */
  function Upto(models: seq<Model>, i: nat, j: nat, k: nat): (r: seq<Section>)
    requires k < |models| && (k == i ==> j <= |models[k].sections|)
    ensures forall s :: s in r ==> s in models[k].sections
  {
    if k < i then models[k].sections else if k == i then models[k].sections[..j] else []
  }

  ghost predicate AllReadable(models: seq<Model>) {
    forall k :: 0 <= k < |models| ==> AllFit(models[k].sections, models[k].body)
  }

  /** Each model's names lead to its own buffers so far; the weights so far are the candidate's. */
  ghost predicate LaidOut(models: seq<Model>, candidate: nat, i: nat, j: nat, sections: seq<Section>, body: seq<byte>)
    requires AllReadable(models) && candidate < |models| && (i < |models| ==> j <= |models[i].sections|)
  {
    && AllFit(sections, body)
    && (forall k: nat, n :: k < |models| ==>
          Resolve(sections, body, Rename(n, k)) == Resolve(Upto(models, i, j, k), models[k].body, n))
    && Weights(sections, body) == Weights(Upto(models, i, j, candidate), models[candidate].body)
  }

  /** Section `s` as it stands in the merged file. */
  function Moved(s: Section, index: nat, offset: nat): Section {
    s.(name := if IsBuffer(s) then Rename(s.name, index) else s.name, offset := offset)
  }

  lemma AppendResolves(models: seq<Model>, candidate: nat, i: nat, j: nat, sections: seq<Section>, body: seq<byte>, k: nat, n: string)
    requires AllReadable(models) && candidate < |models| && i < |models| && j < |models[i].sections|
    requires LaidOut(models, candidate, i, j, sections, body) && k < |models|
    requires Fits(models[i].sections[j], models[i].body)
    ensures var s := models[i].sections[j];
            var sections', body' := sections + [Moved(s, i, |body|)], body + Bytes(s, models[i].body);
            && AllFit(sections', body')
            && Resolve(sections', body', Rename(n, k)) == Resolve(Upto(models, i, j + 1, k), models[k].body, n)
  {
    hide Rename;
    var s := models[i].sections[j];
    var sections', body' := sections + [Moved(s, i, |body|)], body + Bytes(s, models[i].body);
    ResolveGrow(sections, body, Bytes(s, models[i].body), Rename(n, k));
    assert Fits(Moved(s, i, |body|), body') && Bytes(Moved(s, i, |body|), body') == Bytes(s, models[i].body);
    ResolveSnoc(sections, Moved(s, i, |body|), body', Rename(n, k));
    RenameInjective(s.name, i, n, k);
    if k == i {
      assert models[i].sections[..j + 1] == models[i].sections[..j] + [s];
      ResolveSnoc(models[i].sections[..j], s, models[i].body, n);
    }
  }

  lemma AppendWeights(models: seq<Model>, candidate: nat, i: nat, j: nat, sections: seq<Section>, body: seq<byte>)
    requires AllReadable(models) && candidate < |models| && i < |models| && j < |models[i].sections|
    requires LaidOut(models, candidate, i, j, sections, body)
    requires Fits(models[i].sections[j], models[i].body)
    requires models[i].sections[j].kind.Weight? ==> i == candidate
    ensures var s := models[i].sections[j];
            var sections', body' := sections + [Moved(s, i, |body|)], body + Bytes(s, models[i].body);
            && AllFit(sections', body')
            && Weights(sections', body') == Weights(Upto(models, i, j + 1, candidate), models[candidate].body)
  {
    hide Rename;
    var s := models[i].sections[j];
    var sections', body' := sections + [Moved(s, i, |body|)], body + Bytes(s, models[i].body);
    WeightsGrow(sections, body, Bytes(s, models[i].body));
    assert Fits(Moved(s, i, |body|), body') && Bytes(Moved(s, i, |body|), body') == Bytes(s, models[i].body);
    WeightsSnoc(sections, Moved(s, i, |body|), body');
    if i == candidate {
      assert models[i].sections[..j + 1] == models[i].sections[..j] + [s];
      WeightsSnoc(models[i].sections[..j], s, models[i].body);
    }
  }

  lemma AppendSection(models: seq<Model>, candidate: nat, i: nat, j: nat, sections: seq<Section>, body: seq<byte>)
    requires AllReadable(models) && candidate < |models| && i < |models| && j < |models[i].sections|
    requires LaidOut(models, candidate, i, j, sections, body)
    requires Fits(models[i].sections[j], models[i].body)
    requires models[i].sections[j].kind.Weight? ==> i == candidate
    ensures var s := models[i].sections[j];
            LaidOut(models, candidate, i, j + 1, sections + [Moved(s, i, |body|)], body + Bytes(s, models[i].body))
  {
    hide Resolve, Weights, Rename, Bytes;
    AppendWeights(models, candidate, i, j, sections, body);
    forall k: nat, n | k < |models|
      ensures var s := models[i].sections[j];
              Resolve(sections + [Moved(s, i, |body|)], body + Bytes(s, models[i].body), Rename(n, k))
              == Resolve(Upto(models, i, j + 1, k), models[k].body, n)
    {
      AppendResolves(models, candidate, i, j, sections, body, k, n);
    }
  }

  lemma SkipWeight(models: seq<Model>, candidate: nat, i: nat, j: nat, sections: seq<Section>, body: seq<byte>)
    requires AllReadable(models) && candidate < |models| && i < |models| && j < |models[i].sections|
    requires LaidOut(models, candidate, i, j, sections, body)
    requires models[i].sections[j].kind.Weight? && i != candidate
    ensures LaidOut(models, candidate, i, j + 1, sections, body)
  {
    hide Resolve, Weights, Rename, Bytes;
    var s := models[i].sections[j];
    assert models[i].sections[..j + 1] == models[i].sections[..j] + [s];
    forall n
      ensures Resolve(models[i].sections[..j + 1], models[i].body, n) == Resolve(models[i].sections[..j], models[i].body, n)
    {
      ResolveSnoc(models[i].sections[..j], s, models[i].body, n);
    }
    assert forall k: nat :: k < |models| && k != i ==> Upto(models, i, j + 1, k) == Upto(models, i, j, k);
  }

  lemma StartLayout(models: seq<Model>, candidate: nat)
    requires AllReadable(models) && candidate < |models|
    ensures LaidOut(models, candidate, 0, 0, [], [])
  {
    assert forall k: nat :: k < |models| ==> Upto(models, 0, 0, k) == [];
  }

  lemma NextModel(models: seq<Model>, candidate: nat, i: nat, sections: seq<Section>, body: seq<byte>)
    requires AllReadable(models) && candidate < |models| && i < |models|
    requires LaidOut(models, candidate, i, |models[i].sections|, sections, body)
    ensures LaidOut(models, candidate, i + 1, 0, sections, body)
  {
    hide Resolve, Weights, Rename;
    assert forall k: nat :: k < |models| ==> Upto(models, i + 1, 0, k) == Upto(models, i, |models[i].sections|, k);
  }

  ghost predicate Renames(names: map<string, string>, index: nat) {
    forall n :: n in names ==> names[n] == Rename(n, index)
  }

  predicate Covered(sections: seq<Section>, names: map<string, string>) {
    forall s :: s in sections && IsBuffer(s) ==> s.name in names && names[s.name] != []
  }

  /** Every section is hashed for the log; an uncompressed one through an int. */
  predicate Hashable(sections: seq<Section>) {
    forall s :: s in sections && !s.compress ==> FitsInt(s.size)
  }

  // ----- What is kept, as a function of the models ----------------------------------------------

  /** A section and the model it comes from. */
  datatype Owned = Owned(model: nat, section: Section)

  /** The sections of one model that are kept: all, or all but the weights. */
  function KeptOf(sections: seq<Section>, i: nat, weights: bool): seq<Owned> {
    if sections == [] then []
    else
      var front, s := sections[..|sections| - 1], sections[|sections| - 1];
      KeptOf(front, i, weights) + if s.kind.Weight? && !weights then [] else [Owned(i, s)]
  }

  /** The sections of the first `i` models that are kept, in order. */
  function Kept(models: seq<Model>, candidate: nat, i: nat): seq<Owned>
    requires i <= |models|
  {
    if i == 0 then [] else Kept(models, candidate, i - 1) + KeptOf(models[i - 1].sections, i - 1, i - 1 == candidate)
  }

  function KeptUpto(models: seq<Model>, candidate: nat, i: nat, j: nat): seq<Owned>
    requires i < |models| && j <= |models[i].sections|
  {
    Kept(models, candidate, i) + KeptOf(models[i].sections[..j], i, i == candidate)
  }

  lemma KeptSnoc(sections: seq<Section>, s: Section, i: nat, weights: bool)
    ensures KeptOf(sections + [s], i, weights) == KeptOf(sections, i, weights) + if s.kind.Weight? && !weights then [] else [Owned(i, s)]
  {
    assert (sections + [s])[..|sections|] == sections;
  }

  lemma KeptNext(models: seq<Model>, candidate: nat, i: nat, j: nat)
    requires i < |models| && j < |models[i].sections|
    ensures var s := models[i].sections[j];
            KeptUpto(models, candidate, i, j + 1)
            == KeptUpto(models, candidate, i, j) + if s.kind.Weight? && i != candidate then [] else [Owned(i, s)]
  {
    hide KeptOf, Kept;
    assert models[i].sections[..j + 1] == models[i].sections[..j] + [models[i].sections[j]];
    KeptSnoc(models[i].sections[..j], models[i].sections[j], i, i == candidate);
  }

  lemma KeptEnds(models: seq<Model>, candidate: nat, i: nat)
    requires i < |models|
    ensures KeptUpto(models, candidate, i, 0) == Kept(models, candidate, i)
    ensures KeptUpto(models, candidate, i, |models[i].sections|) == Kept(models, candidate, i + 1)
  {
    assert models[i].sections[..0] == [] && models[i].sections[..|models[i].sections|] == models[i].sections;
  }

  /** Bytes taken up by these sections, one after another. */
  function Extent(kept: seq<Owned>): nat {
    if kept == [] then 0 else Extent(kept[..|kept| - 1]) + kept[|kept| - 1].section.size
  }

  ghost predicate AllOwned(models: seq<Model>, kept: seq<Owned>) {
    forall o :: o in kept ==> o.model < |models| && Fits(o.section, models[o.model].body)
  }

  /** Their bytes, one after another. */
  ghost function KeptBytes(models: seq<Model>, kept: seq<Owned>): seq<byte>
    requires AllOwned(models, kept)
  {
    if kept == [] then []
    else
      var o := kept[|kept| - 1];
      KeptBytes(models, kept[..|kept| - 1]) + Bytes(o.section, models[o.model].body)
  }

  function NewName(o: Owned): string {
    if IsBuffer(o.section) then Rename(o.section.name, o.model) else o.section.name
  }

  /** Section `s` stands for number `k` of the kept ones: the same but for its name and a 32-bit offset. */
  ghost predicate StandsFor(s: Section, kept: seq<Owned>, k: nat, renamed: bool) {
    && k < |kept| && s == kept[k].section.(name := s.name, offset := Extent(kept[..k]) % U32)
    && (renamed ==> s.name == NewName(kept[k]))
  }

  /** The file is made of the kept sections, each as it was but for its name and a 32-bit offset. */
  ghost predicate Recorded(models: seq<Model>, kept: seq<Owned>, sections: seq<Section>, body: seq<byte>, renamed: bool) {
    && AllOwned(models, kept) && body == KeptBytes(models, kept) && |body| == Extent(kept) && |sections| == |kept|
    && forall k :: 0 <= k < |kept| ==> StandsFor(sections[k], kept, k, renamed)
  }

  /** The kept sections before the last one add up to less than 2^32 bytes. */
  predicate OffsetsFit(kept: seq<Owned>) {
    kept != [] ==> Extent(kept[..|kept| - 1]) < U32
  }

  ghost predicate OffsetsTrue(kept: seq<Owned>, sections: seq<Section>) {
    |sections| == |kept| && forall k :: 0 <= k < |kept| ==> sections[k].offset == Extent(kept[..k])
  }

  /** Every section of the merged file is recorded at its true place exactly when the last one starts below 4 GiB. */
  lemma OffsetsExactIff(models: seq<Model>, kept: seq<Owned>, sections: seq<Section>, body: seq<byte>, renamed: bool)
    requires Recorded(models, kept, sections, body, renamed)
    ensures OffsetsTrue(kept, sections) <==> OffsetsFit(kept)
  {
    hide Extent, KeptBytes, AllOwned, NewName;
    if kept != [] {
      var last := |kept| - 1;
      assert StandsFor(sections[last], kept, last, renamed);
      if OffsetsFit(kept) {
        forall k | 0 <= k < |kept|
          ensures sections[k].offset == Extent(kept[..k])
        {
          assert StandsFor(sections[k], kept, k, renamed);
          ExtentGrows(kept, k, last);
        }
      }
    }
  }

  lemma {:induction false} ExtentGrows(kept: seq<Owned>, k: nat, j: nat)
    requires k <= j <= |kept|
    ensures Extent(kept[..k]) <= Extent(kept[..j])
    decreases j
  {
    if k < j {
      ExtentGrows(kept, k, j - 1);
      assert kept[..j][..j - 1] == kept[..j - 1];
    }
  }

  lemma RecordOne(models: seq<Model>, kept: seq<Owned>, sections: seq<Section>, body: seq<byte>, renamed: bool, o: Owned, s: Section)
    requires Recorded(models, kept, sections, body, renamed)
    requires o.model < |models| && Fits(o.section, models[o.model].body)
    requires s == o.section.(name := s.name, offset := |body| % U32) && (renamed ==> s.name == NewName(o))
    ensures Recorded(models, kept + [o], sections + [s], body + Bytes(o.section, models[o.model].body), renamed)
    ensures OffsetsFit(kept + [o]) ==> |body| < U32 && OffsetsFit(kept)
  {
    hide NewName, Bytes, Extent, KeptBytes;
    var more, sections' := kept + [o], sections + [s];
    ExtentSnoc(kept, o);
    assert AllOwned(models, more);
    BytesSnoc(models, kept, o);
    forall k | 0 <= k < |more|
      ensures StandsFor(sections'[k], more, k, renamed)
    {
      if k < |kept| {
        assert StandsFor(sections[k], kept, k, renamed);
        assert more[..k] == kept[..k] && sections'[k] == sections[k];
      } else {
        assert more[..k] == kept;
      }
    }
  }

  lemma ExtentSnoc(kept: seq<Owned>, o: Owned)
    ensures Extent(kept + [o]) == Extent(kept) + o.section.size
    ensures OffsetsFit(kept + [o]) <==> Extent(kept) < U32
    ensures Extent(kept) < U32 ==> OffsetsFit(kept)
  {
    assert (kept + [o])[..|kept|] == kept;
  }

  lemma BytesSnoc(models: seq<Model>, kept: seq<Owned>, o: Owned)
    requires AllOwned(models, kept + [o])
    ensures AllOwned(models, kept)
    ensures o.model < |models| && Fits(o.section, models[o.model].body)
    ensures KeptBytes(models, kept + [o]) == KeptBytes(models, kept) + Bytes(o.section, models[o.model].body)
  {
    assert o in kept + [o];
    assert forall x :: x in kept ==> x in kept + [o];
    assert (kept + [o])[..|kept|] == kept;
  }

  lemma NothingRecorded(models: seq<Model>, candidate: nat, renamed: bool)
    ensures Kept(models, candidate, 0) == [] && Recorded(models, [], [], [], renamed)
  {
  }

  // ----- Copying --------------------------------------------------------------------------------

  /** A section is refused for the reason given. */
  predicate Refusal(error: Option<MergeError>, covered: bool, hashable: bool) {
    match error
    case None => true
    case Some(e) => (e == UnnamedSection && !covered) || (e == SizeBeyondInt && !hashable)
  }

  /** The last loop of cloneSections, for model `i`. The running offset is 32 bits wide. */
  method CopyModel(models: seq<Model>, names: map<string, string>, candidate: nat, i: nat,
                   sections0: seq<Section>, body0: seq<byte>, offset0: nat, ghost renamed: bool)
    returns (error: Option<MergeError>, sections: seq<Section>, body: seq<byte>, offset: nat)
    requires AllReadable(models) && candidate < |models| && i < |models| && offset0 == |body0| % U32
    requires renamed ==> Renames(names, i)
    requires Recorded(models, Kept(models, candidate, i), sections0, body0, renamed)
    requires renamed && OffsetsFit(Kept(models, candidate, i)) ==> LaidOut(models, candidate, i, 0, sections0, body0)
    ensures error == None <==> Covered(models[i].sections, names) && Hashable(models[i].sections)
    ensures Refusal(error, Covered(models[i].sections, names), Hashable(models[i].sections))
    ensures error == None ==> offset == |body| % U32 && Recorded(models, Kept(models, candidate, i + 1), sections, body, renamed)
    ensures error == None && renamed && OffsetsFit(Kept(models, candidate, i + 1)) ==> LaidOut(models, candidate, i + 1, 0, sections, body)
  {
    hide LaidOut, Recorded, OffsetsFit, Kept, KeptUpto;
    sections, body, offset := sections0, body0, offset0;
    var all := models[i].sections;
    KeptEnds(models, candidate, i);
    for j := 0 to |all|
      invariant offset == |body| % U32 && Recorded(models, KeptUpto(models, candidate, i, j), sections, body, renamed)
      invariant Covered(all[..j], names) && Hashable(all[..j])
      invariant renamed && OffsetsFit(KeptUpto(models, candidate, i, j)) ==> LaidOut(models, candidate, i, j, sections, body)
    {
      assert all[..j + 1] == all[..j] + [all[j]] && all[j] in all;
      error, sections, body, offset := CopySection(models, names, candidate, i, j, sections, body, offset, renamed);
      if error != None {
        return;
      }
    }
    assert all[..|all|] == all;
    if renamed && OffsetsFit(Kept(models, candidate, i + 1)) {
      NextModel(models, candidate, i, sections, body);
    }
    error := None;
  }

  /** One section: hashed, then dropped, or renamed and appended. */
  method CopySection(models: seq<Model>, names: map<string, string>, candidate: nat, i: nat, j: nat,
                     sections0: seq<Section>, body0: seq<byte>, offset0: nat, ghost renamed: bool)
    returns (error: Option<MergeError>, sections: seq<Section>, body: seq<byte>, offset: nat)
    requires AllReadable(models) && candidate < |models| && i < |models| && offset0 == |body0| % U32
    requires j < |models[i].sections| && (renamed ==> Renames(names, i))
    requires Recorded(models, KeptUpto(models, candidate, i, j), sections0, body0, renamed)
    requires renamed && OffsetsFit(KeptUpto(models, candidate, i, j)) ==> LaidOut(models, candidate, i, j, sections0, body0)
    ensures error == None <==> Covered([models[i].sections[j]], names) && Hashable([models[i].sections[j]])
    ensures Refusal(error, Covered([models[i].sections[j]], names), Hashable([models[i].sections[j]]))
    ensures error == None ==> offset == |body| % U32 && Recorded(models, KeptUpto(models, candidate, i, j + 1), sections, body, renamed)
    ensures error == None && renamed && OffsetsFit(KeptUpto(models, candidate, i, j + 1)) ==> LaidOut(models, candidate, i, j + 1, sections, body)
  {
    hide LaidOut, Rename, Bytes, Wrap, Recorded, OffsetsFit, KeptUpto;
    error, sections, body, offset := None, sections0, body0, offset0;
    var s := models[i].sections[j];
    assert s in models[i].sections && Fits(s, models[i].body) && s in [s];
    KeptNext(models, candidate, i, j);
    if !s.compress && Wrap(s.size) < 0 {
      return Some(SizeBeyondInt), sections, body, offset;
    }
    if s.kind.Weight? && i != candidate {
      assert KeptUpto(models, candidate, i, j + 1) == KeptUpto(models, candidate, i, j);
      if renamed && OffsetsFit(KeptUpto(models, candidate, i, j)) {
        SkipWeight(models, candidate, i, j, sections, body);
      }
      return;
    }
    var name := s.name;
    if IsBuffer(s) {
      name := if s.name in names then names[s.name] else [];
      if name == [] {
        return Some(UnnamedSection), sections, body, offset;
      }
    }
    Place(models, candidate, i, j, sections, body, s.(name := name, offset := offset), renamed);
    sections := sections + [s.(name := name, offset := offset)];
    body := body + Bytes(s, models[i].body);
    offset := (offset + s.size) % U32;
  }

  lemma Place(models: seq<Model>, candidate: nat, i: nat, j: nat, sections: seq<Section>, body: seq<byte>, placed: Section, renamed: bool)
    requires AllReadable(models) && candidate < |models| && i < |models| && j < |models[i].sections|
    requires Recorded(models, KeptUpto(models, candidate, i, j), sections, body, renamed)
    requires Fits(models[i].sections[j], models[i].body) && (models[i].sections[j].kind.Weight? ==> i == candidate)
    requires renamed && OffsetsFit(KeptUpto(models, candidate, i, j)) ==> LaidOut(models, candidate, i, j, sections, body)
    requires var s := models[i].sections[j];
             placed == s.(name := placed.name, offset := |body| % U32) && (renamed ==> placed.name == NewName(Owned(i, s)))
    ensures var sections', body' := sections + [placed], body + Bytes(models[i].sections[j], models[i].body);
            && Recorded(models, KeptUpto(models, candidate, i, j + 1), sections', body', renamed)
            && (renamed && OffsetsFit(KeptUpto(models, candidate, i, j + 1)) ==> LaidOut(models, candidate, i, j + 1, sections', body'))
  {
    hide LaidOut, Rename, Bytes, Recorded, OffsetsFit, KeptUpto;
    var s := models[i].sections[j];
    KeptNext(models, candidate, i, j);
    RecordOne(models, KeptUpto(models, candidate, i, j), sections, body, renamed, Owned(i, s), placed);
    if renamed && OffsetsFit(KeptUpto(models, candidate, i, j + 1)) {
      AppendSection(models, candidate, i, j, sections, body);
      assert placed == Moved(s, i, |body|);
    }
  }

  ghost predicate AllCovered(models: seq<Model>, maps: seq<map<string, string>>)
    requires |maps| == |models|
  {
    forall i :: 0 <= i < |models| ==> Covered(models[i].sections, maps[i])
  }

  ghost predicate AllHashable(models: seq<Model>) {
    forall i :: 0 <= i < |models| ==> Hashable(models[i].sections)
  }

  ghost predicate Renaming(maps: seq<map<string, string>>) {
    forall i :: 0 <= i < |maps| ==> Renames(maps[i], i)
  }

  method CopySections(models: seq<Model>, maps: seq<map<string, string>>, candidate: nat)
    returns (error: Option<MergeError>, sections: seq<Section>, body: seq<byte>)
    requires AllReadable(models) && candidate < |models| == |maps|
    ensures error == None <==> AllCovered(models, maps) && AllHashable(models)
    ensures Refusal(error, AllCovered(models, maps), AllHashable(models))
    ensures error == None ==> Recorded(models, Kept(models, candidate, |models|), sections, body, Renaming(maps))
    ensures error == None && Renaming(maps) && OffsetsFit(Kept(models, candidate, |models|)) ==>
      LaidOut(models, candidate, |models|, 0, sections, body)
  {
    hide LaidOut, Renames, OffsetsFit, Recorded, Kept;
    sections, body := [], [];
    NothingRecorded(models, candidate, Renaming(maps));
    var offset := 0;
    StartLayout(models, candidate);
    for i := 0 to |models|
      invariant offset == |body| % U32 && Recorded(models, Kept(models, candidate, i), sections, body, Renaming(maps))
      invariant forall k :: 0 <= k < i ==> Covered(models[k].sections, maps[k]) && Hashable(models[k].sections)
      invariant Renaming(maps) && OffsetsFit(Kept(models, candidate, i)) ==> LaidOut(models, candidate, i, 0, sections, body)
    {
      error, sections, body, offset := CopyModel(models, maps[i], candidate, i, sections, body, offset, Renaming(maps));
      if error != None {
        return;
      }
    }
    error := None;
  }

  // ----- The merge ------------------------------------------------------------------------------

  ghost predicate HasWeight(models: seq<Model>) {
    exists w :: IsWeight(models, w)
  }

  /** Weight bytes of any model. */
  ghost predicate WeightOf(models: seq<Model>, v: seq<byte>)
    requires AllReadable(models)
  {
    exists i :: 0 <= i < |models| && v in Weights(models[i].sections, models[i].body)
  }

  ghost predicate WeightPrefix(models: seq<Model>, x: seq<byte>)
    requires AllReadable(models)
  {
    exists v :: WeightOf(models, v) && x <= v
  }

  /** The hash tells apart the prefixes of the weight sections at hand. */
  ghost predicate CollisionFree(f: Md5.BlockFunction, models: seq<Model>)
    requires AllReadable(models)
  {
    forall x, y :: WeightPrefix(models, x) && WeightPrefix(models, y) && Md5.Digest(f, x) == Md5.Digest(f, y) ==> x == y
  }

  /** One weight section extends all the others. */
  ghost predicate Nested(models: seq<Model>)
    requires AllReadable(models)
  {
    exists top :: WeightOf(models, top) && forall v :: WeightOf(models, v) ==> v <= top
  }

  lemma WeightOfIff(models: seq<Model>, ws: seq<WeightSection>, v: seq<byte>)
    requires (forall m :: m in models ==> Readable(m)) && forall w :: w in ws <==> IsWeight(models, w)
    ensures AllReadable(models)
    ensures WeightOf(models, v) <==> v in Contents(models, ws)
  {
    assert forall k :: 0 <= k < |models| ==> models[k] in models;
    var c := Contents(models, ws);
    if WeightOf(models, v) {
      var i :| 0 <= i < |models| && v in Weights(models[i].sections, models[i].body);
      WeightsMembers(models[i].sections, models[i].body, v);
      var s :| s in models[i].sections && s.kind.Weight? && Bytes(s, models[i].body) == v;
      var w := WeightSection(i, s);
      assert IsWeight(models, w) && w in ws;
      var k :| 0 <= k < |ws| && ws[k] == w;
      assert c[k] == v;
    }
    if v in c {
      var k :| 0 <= k < |c| && c[k] == v;
      var w := ws[k];
      assert w in ws && IsWeight(models, w);
      WeightsMembers(models[w.id].sections, models[w.id].body, v);
    }
  }

  /** The comparison passes exactly when one weight section extends all others; the last one in order does. */
  lemma ComparisonMeans(f: Md5.BlockFunction, models: seq<Model>, ws: seq<WeightSection>)
    requires (forall m :: m in models ==> Readable(m)) && forall w :: w in ws <==> IsWeight(models, w)
    requires ws != [] && Ascending(ws)
    ensures AllReadable(models) && Growing(Contents(models, ws))
    ensures CollisionFree(f, models) ==> (HashChain(f, Contents(models, ws)) <==> Nested(models))
    ensures CollisionFree(f, models) && Nested(models) ==>
      forall v :: WeightOf(models, v) ==> v <= Contents(models, ws)[|ws| - 1]
  {
    hide Md5.Digest, Weights;
    var c := Contents(models, ws);
    assert forall k :: 0 <= k < |models| ==> models[k] in models;
    forall v
      ensures WeightOf(models, v) <==> v in c
    {
      WeightOfIff(models, ws, v);
    }
    if CollisionFree(f, models) {
      assert NoCollision(f, c) by { PrefixesAgree(f, models, c); }
      HashChainIff(f, c);
      assert c[|c| - 1] in c;
      if Nested(models) {
        var top :| WeightOf(models, top) && forall v :: WeightOf(models, v) ==> v <= top;
        LongestIsTop(c, top);
      }
    }
  }

  lemma LongestIsTop(c: seq<seq<byte>>, top: seq<byte>)
    requires c != [] && Growing(c) && top in c && forall v :: v in c ==> v <= top
    ensures top == c[|c| - 1]
  {
    var k :| 0 <= k < |c| && c[k] == top;
    assert c[|c| - 1] in c;
  }

  lemma PrefixesAgree(f: Md5.BlockFunction, models: seq<Model>, c: seq<seq<byte>>)
    requires AllReadable(models) && CollisionFree(f, models) && forall v :: WeightOf(models, v) <==> v in c
    ensures NoCollision(f, c)
  {
    hide Md5.Digest, WeightOf;
    assert forall x :: PrefixOfSome(x, c) ==> WeightPrefix(models, x);
  }

  predicate OneWeightEach(models: seq<Model>)
    requires forall k :: 0 <= k < |models| ==> AllFit(models[k].sections, models[k].body)
  {
    forall i :: 0 <= i < |models| ==> |Weights(models[i].sections, models[i].body)| == 1
  }

  ghost predicate BuffersUsed(m: Model) {
    |m.programs| == 1 && forall s :: s in m.sections && IsBuffer(s) ==> Uses(m.programs[0], s.name)
  }

  /** `r'` runs the command bytes that `r` ran, named in the same field alone, or is the same call of a CPU function. */
  ghost predicate SameRoutine(m: Model, r: Routine, merged: Model, r': Routine)
    requires AllFit(m.sections, m.body) && AllFit(merged.sections, merged.body)
  {
    && Named(r) && Named(r')
    && if r.Cpu? then r' == r
       else r'.Tpu? && r'.cmdbuf.Some? == r.cmdbuf.Some? && r'.dmabuf.Some? == r.cmdbuf.None? && Resolve(merged.sections, merged.body, Used(r')) == Resolve(m.sections, m.body, Used(r))
  }

  ghost predicate ProgramsKept(models: seq<Model>, merged: Model)
    requires AllReadable(models) && AllFit(merged.sections, merged.body) && OneProgramEach(models)
  {
    && |merged.programs| == |models|
    && forall i, j :: 0 <= i < |models| && 0 <= j < |models[i].programs[0]| ==>
         && |merged.programs[i]| == |models[i].programs[0]|
         && SameRoutine(models[i], models[i].programs[0][j], merged, merged.programs[i][j])
  }

  ghost predicate WeightsKept(models: seq<Model>, merged: Model)
    requires AllReadable(models) && AllFit(merged.sections, merged.body)
  {
    var kept := Weights(merged.sections, merged.body);
    && (exists i :: 0 <= i < |models| && kept == Weights(models[i].sections, models[i].body))
    && forall v :: WeightOf(models, v) ==> exists u :: u in kept && v <= u
  }

  ghost predicate WeightMapKept(models: seq<Model>, out: seq<WeightInfo>) {
    && (forall w :: Listed(models, w) ==> Has(out, w))
    && (forall o :: o in out ==> Listed(models, o))
    && forall a, b :: 0 <= a < b < |out| ==> !SameKey(out[a], out[b])
  }

  lemma RoutinesResolve(models: seq<Model>, candidate: nat, programs: seq<seq<Routine>>, maps: seq<map<string, string>>, merged: Model)
    requires AllReadable(models) && OneProgramEach(models) && candidate < |models| == |maps|
    requires AllRenamed(models, programs, maps) && merged.programs == programs
    requires LaidOut(models, candidate, |models|, 0, merged.sections, merged.body)
    ensures ProgramsKept(models, merged)
  {
    hide Resolve, Weights, Rename, NamesOf;
    forall i: nat, j | i < |models| && 0 <= j < |models[i].programs[0]|
      ensures |programs[i]| == |models[i].programs[0]|
      ensures SameRoutine(models[i], models[i].programs[0][j], merged, programs[i][j])
    {
      var r := models[i].programs[0][j];
      assert RenamedProgram(models[i].programs[0], i, programs[i]);
      if r.Tpu? {
        assert Used(programs[i][j]) == Rename(Used(r), i);
        assert Upto(models, |models|, 0, i) == models[i].sections;
      }
    }
  }

  /** With one weight section per model, every weight range reads the same bytes after the merge. */
  lemma RangesKept(models: seq<Model>, merged: Model, i: nat, a: nat, b: nat)
    requires AllReadable(models) && AllFit(merged.sections, merged.body)
    requires OneWeightEach(models) && WeightsKept(models, merged) && i < |models|
    requires a <= b <= |Weights(models[i].sections, models[i].body)[0]|
    ensures var kept := Weights(merged.sections, merged.body);
            && |kept| == 1 && b <= |kept[0]|
            && kept[0][a..b] == Weights(models[i].sections, models[i].body)[0][a..b]
  {
    var v := Weights(models[i].sections, models[i].body)[0];
    assert WeightOf(models, v);
    var u :| u in Weights(merged.sections, merged.body) && v <= u;
    assert u[..|v|] == v;
  }

  lemma CoveredIff(models: seq<Model>, programs: seq<seq<Routine>>, maps: seq<map<string, string>>)
    requires |maps| == |models| && AllRenamed(models, programs, maps)
    ensures Renaming(maps)
    ensures AllCovered(models, maps) <==> forall i :: 0 <= i < |models| ==> BuffersUsed(models[i])
  {
    hide Uses, RenamedProgram;
    forall i: nat | i < |models|
      ensures Renames(maps[i], i) && (Covered(models[i].sections, maps[i]) <==> BuffersUsed(models[i]))
    {
      assert NamesOf(models[i].programs[0], i, maps[i]);
    }
  }

  /** Model `c` has a weight section that none is longer than. The sort decides between several owners. */
  ghost predicate Owner(models: seq<Model>, c: nat) {
    exists w :: IsWeight(models, w) && w.id == c && forall v :: IsWeight(models, v) ==> v.section.size <= w.section.size
  }

  /** With the weights of model `c` kept, all sections but the last one fit below 4 GiB. */
  predicate KeptFits(models: seq<Model>, c: nat) {
    OffsetsFit(Kept(models, c, |models|))
  }

  /** Model::merge */
  method Merge(f: Md5.BlockFunction, models: seq<Model>) returns (r: Result<Model>, ghost owner: nat)
    requires (forall m :: m in models ==> Readable(m) && ProgramsNamed(m)) && HasWeight(models)
    ensures AllReadable(models)
    ensures OneProgramEach(models) && CollisionFree(f, models) ==>
      (r.Ok? <==> !Mixed(models) && Nested(models) && AllHashable(models) && forall i :: 0 <= i < |models| ==> BuffersUsed(models[i]))
    ensures r.Ok? ==>
      Owner(models, owner) && Recorded(models, Kept(models, owner, |models|), r.value.sections, r.value.body, OneProgramEach(models))
    ensures r.Ok? ==> (OffsetsTrue(Kept(models, owner, |models|), r.value.sections) <==> KeptFits(models, owner))
    ensures r.Ok? && OneProgramEach(models) && CollisionFree(f, models) && KeptFits(models, owner) ==>
      AllFit(r.value.sections, r.value.body) && ProgramsKept(models, r.value) && WeightsKept(models, r.value)
    ensures r.Ok? ==> r.value.weightMap == FirstOfEach(AllWeights(models)) && WeightMapKept(models, r.value.weightMap)
    ensures r.Ok? ==> Cloned(Sources(models), r.value.programs)
    ensures r == Err(ProgramCount) <==> |Sources(models)| != |models|
    ensures r == Err(MixedBuffers) <==> |Sources(models)| == |models| && Mixed(models)
    ensures r == Err(WeightMismatch) && CollisionFree(f, models) ==> !Nested(models)
    ensures r == Err(SizeBeyondInt) ==> !AllHashable(models)
    ensures r == Err(UnnamedSection) && OneProgramEach(models) ==> exists i :: 0 <= i < |models| && !BuffersUsed(models[i])
  {
    hide Cloned, AllNames, Sources, FirstOfEach, WeightMapKept, CollisionFree, Nested, LaidOut, Recorded, Kept, OffsetsFit, OffsetsTrue, AllHashable, AllFitInt, AllRenamed, ProgramsKept, WeightsKept, BuffersUsed, Mixed, AllCovered;
    owner := 0;
    assert forall k :: 0 <= k < |models| ==> models[k] in models;
    var weightMap := CloneWeightMap(models);
    var programs, maps := ClonePrograms(models);
    if OneProgramEach(models) {
      ClonedEach(models, programs, maps);
      CoveredIff(models, programs, maps);
    }
    assert |maps| == |Sources(models)| by { CountMaps(Sources(models), maps); }
    if |maps| != |models| {
      return Err(ProgramCount), owner;
    }
    var found, mixed := CollectWeights(models);
    if mixed {
      return Err(MixedBuffers), owner;
    }
    var ws := SortBySize(found);
    assert ws != [];
    ComparisonMeans(f, models, ws);
    var candidate := ws[|ws| - 1].id;
    owner := candidate;
    LastIsOwner(models, ws);
    var outcome := CompareWeights(f, Contents(models, ws));
    WeightsHashable(models, ws);
    if outcome != Same {
      return Err(if outcome == Different then WeightMismatch else SizeBeyondInt), owner;
    }
    var error, sections, body := CopySections(models, maps, candidate);
    if error != None {
      return Err(error.value), owner;
    }
    var merged := Model(weightMap, programs, sections, body);
    OffsetsExactIff(models, Kept(models, owner, |models|), sections, body, Renaming(maps));
    RecordedAnyway(models, Kept(models, owner, |models|), sections, body, Renaming(maps), OneProgramEach(models));
    if OneProgramEach(models) && CollisionFree(f, models) && KeptFits(models, owner) {
      CandidateKept(models, ws, candidate, merged);
      RoutinesResolve(models, candidate, programs, maps, merged);
    }
    r := Ok(merged);
  }

  lemma RecordedAnyway(models: seq<Model>, kept: seq<Owned>, sections: seq<Section>, body: seq<byte>, renamed: bool, less: bool)
    requires Recorded(models, kept, sections, body, renamed) && (less ==> renamed)
    ensures Recorded(models, kept, sections, body, less)
  {
    hide KeptBytes, Extent, NewName;
    forall k | 0 <= k < |kept|
      ensures StandsFor(sections[k], kept, k, less)
    {
      assert StandsFor(sections[k], kept, k, renamed);
    }
  }

  lemma CountMaps(sources: seq<Source>, maps: seq<map<string, string>>)
    requires AllNames(sources, maps)
    ensures |maps| == |sources|
  {
  }

  lemma LastIsOwner(models: seq<Model>, ws: seq<WeightSection>)
    requires ws != [] && Ascending(ws) && forall w :: w in ws <==> IsWeight(models, w)
    ensures IsWeight(models, ws[|ws| - 1]) && Owner(models, ws[|ws| - 1].id)
  {
    var last := ws[|ws| - 1];
    forall v | IsWeight(models, v)
      ensures v.section.size <= last.section.size
    {
      var k :| 0 <= k < |ws| && ws[k] == v;
    }
    assert last in ws;
  }

  /** Weight sections are uncompressed, so they count among the sections hashed for the log. */
  lemma WeightsHashable(models: seq<Model>, ws: seq<WeightSection>)
    requires (forall m :: m in models ==> Readable(m)) && forall w :: w in ws <==> IsWeight(models, w)
    ensures AllHashable(models) ==> AllFitInt(Contents(models, ws))
  {
    if AllHashable(models) {
      forall k | 0 <= k < |ws|
        ensures FitsInt(|Contents(models, ws)[k]|)
      {
        var w := ws[k];
        assert w in ws && IsWeight(models, w);
        assert models[w.id] in models && Hashable(models[w.id].sections);
      }
    }
  }

  lemma CandidateKept(models: seq<Model>, ws: seq<WeightSection>, candidate: nat, merged: Model)
    requires (forall m :: m in models ==> Readable(m)) && forall w :: w in ws <==> IsWeight(models, w)
    requires AllReadable(models) && ws != [] && candidate == ws[|ws| - 1].id < |models|
    requires forall v :: WeightOf(models, v) ==> v <= Contents(models, ws)[|ws| - 1]
    requires LaidOut(models, candidate, |models|, 0, merged.sections, merged.body)
    ensures AllFit(merged.sections, merged.body) && WeightsKept(models, merged)
  {
    hide Resolve, Weights, Rename;
    var w := ws[|ws| - 1];
    var top := Contents(models, ws)[|ws| - 1];
    assert Upto(models, |models|, 0, candidate) == models[candidate].sections;
    assert IsWeight(models, w);
    WeightsMembers(models[candidate].sections, models[candidate].body, top);
  }
}
