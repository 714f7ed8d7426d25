/**
 What the runtime reads of a cvimodel file (src/common/model.cpp, src/common/program.cpp): command
 buffers found by name, weights read by range; and the names the merge tool gives to sections.
 */
module ModelFile {
  import opened Common

  datatype SectionType = Weight | Cmdbuf | Dmabuf | Function(isa: nat)

  datatype Section = Section(
    kind: SectionType, name: string, size: uint32, offset: nat,
    encrypt: bool, compress: bool, decompressedSize: nat)

  datatype Routine =
    | Tpu(cmdbuf: Option<string>, dmabuf: Option<string>)
    | Cpu(functionSection: string, args: seq<byte>)

  datatype WeightInfo = WeightInfo(name: string, offset: int, size: nat, shape: seq<int>, dtype: nat)

  /** `body` is the file from its binary offset on; section offsets count from there. */
  datatype Model = Model(weightMap: seq<WeightInfo>, programs: seq<seq<Routine>>, sections: seq<Section>, body: seq<byte>)

  predicate Fits(s: Section, body: seq<byte>) {
    s.offset + s.size <= |body|
  }

  predicate AllFit(sections: seq<Section>, body: seq<byte>) {
    forall s :: s in sections ==> Fits(s, body)
  }

  function Bytes(s: Section, body: seq<byte>): (r: seq<byte>)
    requires Fits(s, body)
    ensures |r| == s.size
  {
    body[s.offset..s.offset + s.size]
  }

  // ----- Command buffers ------------------------------------------------------------------------

  predicate IsBuffer(s: Section) {
    s.kind.Cmdbuf? || s.kind.Dmabuf?
  }

  /** Everything the loader passes on for a buffer section. */
  datatype Code = Code(kind: SectionType, encrypt: bool, compress: bool, decompressedSize: nat, bytes: seq<byte>)

  /** The loader's dmabuf_map: the first buffer of a name counts, empty command buffers are skipped. */
  function Resolve(sections: seq<Section>, body: seq<byte>, name: string): Option<Code>
    requires AllFit(sections, body)
  {
    if sections == [] then None
    else
      var front, s := sections[..|sections| - 1], sections[|sections| - 1];
      var earlier := Resolve(front, body, name);
      if earlier.Some? then earlier
      else if IsBuffer(s) && s.name == name && !(s.kind.Cmdbuf? && s.size == 0)
      then Some(Code(s.kind, s.encrypt, s.compress, s.decompressedSize, Bytes(s, body)))
      else None
  }

  lemma ResolveSnoc(sections: seq<Section>, s: Section, body: seq<byte>, name: string)
    requires AllFit(sections + [s], body)
    ensures AllFit(sections, body)
    ensures Resolve(sections + [s], body, name) ==
            var earlier := Resolve(sections, body, name);
            if earlier.Some? then earlier
            else if IsBuffer(s) && s.name == name && !(s.kind.Cmdbuf? && s.size == 0)
            then Some(Code(s.kind, s.encrypt, s.compress, s.decompressedSize, Bytes(s, body)))
            else None
  {
    assert forall x :: x in sections ==> x in sections + [s];
    assert (sections + [s])[..|sections|] == sections;
  }

  lemma {:induction false} ResolveGrow(sections: seq<Section>, body: seq<byte>, more: seq<byte>, name: string)
    requires AllFit(sections, body)
    ensures AllFit(sections, body + more)
    ensures Resolve(sections, body + more, name) == Resolve(sections, body, name)
  {
    if sections != [] {
      var s := sections[|sections| - 1];
      ResolveGrow(sections[..|sections| - 1], body, more, name);
      assert Fits(s, body);
      assert Bytes(s, body + more) == Bytes(s, body);
    }
  }

  // ----- Weights --------------------------------------------------------------------------------

  /** The bytes of every weight section, in file order. */
  function Weights(sections: seq<Section>, body: seq<byte>): seq<seq<byte>>
    requires AllFit(sections, body)
  {
    if sections == [] then []
    else
      var front, s := sections[..|sections| - 1], sections[|sections| - 1];
      Weights(front, body) + if s.kind.Weight? then [Bytes(s, body)] else []
  }

  lemma WeightsSnoc(sections: seq<Section>, s: Section, body: seq<byte>)
    requires AllFit(sections + [s], body)
    ensures AllFit(sections, body)
    ensures Weights(sections + [s], body) == Weights(sections, body) + if s.kind.Weight? then [Bytes(s, body)] else []
  {
    assert forall x :: x in sections ==> x in sections + [s];
    assert (sections + [s])[..|sections|] == sections;
  }

  lemma {:induction false} WeightsGrow(sections: seq<Section>, body: seq<byte>, more: seq<byte>)
    requires AllFit(sections, body)
    ensures AllFit(sections, body + more)
    ensures Weights(sections, body + more) == Weights(sections, body)
  {
    if sections != [] {
      var s := sections[|sections| - 1];
      WeightsGrow(sections[..|sections| - 1], body, more);
      assert Fits(s, body);
      assert Bytes(s, body + more) == Bytes(s, body);
    }
  }

  /** Every element of Weights is the contents of a weight section, and the other way round. */
  lemma {:induction false} WeightsMembers(sections: seq<Section>, body: seq<byte>, w: seq<byte>)
    requires AllFit(sections, body)
    ensures w in Weights(sections, body) <==> exists s :: s in sections && s.kind.Weight? && Bytes(s, body) == w
  {
    if sections != [] {
      var front, s := sections[..|sections| - 1], sections[|sections| - 1];
      assert forall x :: x in sections <==> x in front || x == s;
      WeightsMembers(front, body, w);
    }
  }

  // ----- Names ----------------------------------------------------------------------------------

  predicate IsDigit(c: char) {
    '0' <= c <= '9'
  }

  function Decimal(n: nat): (r: string)
    ensures r != [] && forall c :: c in r ==> IsDigit(c)
  {
    if n < 10 then [DigitChar(n)] else Decimal(n / 10) + [DigitChar(n % 10)]
  }

  function DigitChar(d: nat): (c: char)
    requires d < 10
    ensures IsDigit(c)
  {
    '0' + d as char
  }

  lemma {:induction false} DecimalInjective(i: nat, j: nat)
    requires Decimal(i) == Decimal(j)
    ensures i == j
  {
    var a, b := Decimal(i), Decimal(j);
    assert a[|a| - 1] == DigitChar(i % 10) && b[|b| - 1] == DigitChar(j % 10);
    assert i % 10 == j % 10;
    assert (i < 10 <==> |a| == 1) && (j < 10 <==> |b| == 1);
    if i >= 10 {
      assert a[..|a| - 1] == Decimal(i / 10) && b[..|b| - 1] == Decimal(j / 10);
      DecimalInjective(i / 10, j / 10);
    }
  }

  /** The name of section `name` of model number `index` in the merged file. */
  function Rename(name: string, index: nat): string {
    name + "_" + Decimal(index)
  }

  /** Whatever the original names are, renamed ones never collide. */
  lemma RenameInjective(a: string, i: nat, b: string, j: nat)
    ensures Rename(a, i) == Rename(b, j) <==> a == b && i == j
  {
    if Rename(a, i) == Rename(b, j) {
      var x, y := Decimal(i), Decimal(j);
      if |x| < |y| {
        UnderscorePlace(a, x, b, y);
      } else if |y| < |x| {
        UnderscorePlace(b, y, a, x);
      } else {
        assert Rename(a, i)[..|a|] == a && Rename(b, j)[..|b|] == b;
        assert Rename(a, i)[|a| + 1..] == x && Rename(b, j)[|b| + 1..] == y;
        DecimalInjective(i, j);
      }
    }
  }

  lemma UnderscorePlace(a: string, x: string, b: string, y: string)
    requires |x| < |y| && |a| + |x| == |b| + |y| && forall c :: c in y ==> IsDigit(c)
    ensures (a + "_" + x)[|a|] == '_' && IsDigit((b + "_" + y)[|a|])
  {
    assert y[|a| - |b| - 1] in y;
  }

  /** The section a TPU routine runs. */
  function Used(r: Routine): string
    requires r.Tpu? && (r.cmdbuf.Some? || r.dmabuf.Some?)
  {
    if r.cmdbuf.Some? then r.cmdbuf.value else r.dmabuf.value
  }
}
