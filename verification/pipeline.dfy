/** Loading blocks and rendering a template with them, end to end: a block
    file written from trimmed blocks, and any template whose placeholders all
    name non-empty blocks of it, render to the template with each placeholder
    replaced by the content of the last block of that name (render.py:20-22
    with the I/O of render.py:100-109 replaced by values). */
module Pipeline {
  import opened Wrappers
  import opened Text
  import opened Markers
  import opened Blocks
  import opened Encoding
  import opened Rendering

  /** With `\w` read as ASCII, the two name classes coincide, so every block
      name can be written as a placeholder. */
  lemma {:induction false} BlockNameIsPlaceholderName(name: string)
    requires IsBlockName(name)
    ensures IsPlaceholderName(name)
  {
  }

  /** No two blocks share a name. */
  predicate DistinctNames(bs: seq<Block>) {
    forall i, j :: 0 <= i < j < |bs| ==> bs[i].name != bs[j].name
  }

  /** The template that references every block once, in order, each
      placeholder followed by `sep`. */
  function ReferenceAll(bs: seq<Block>, sep: string): seq<Piece> {
    if bs == [] then [] else [Ref(bs[0].name), Literal(sep)] + ReferenceAll(bs[1..], sep)
  }

  /** The contents of the blocks, in order, each followed by `sep`. */
  function JoinContents(bs: seq<Block>, sep: string): string {
    if bs == [] then [] else bs[0].content + sep + JoinContents(bs[1..], sep)
  }

  /** Every piece of the template is the separator or a reference to a block. */
  lemma {:induction false} ReferenceAllPieces(bs: seq<Block>, sep: string)
    ensures forall p :: p in ReferenceAll(bs, sep) ==>
      p == Literal(sep) || exists k :: 0 <= k < |bs| && p == Ref(bs[k].name)
    decreases |bs|
  {
    if bs != [] {
      ReferenceAllPieces(bs[1..], sep);
      forall p | p in ReferenceAll(bs, sep)
        ensures p == Literal(sep) || exists k :: 0 <= k < |bs| && p == Ref(bs[k].name)
      {
        if p in ReferenceAll(bs[1..], sep) && p != Literal(sep) {
          var k :| 0 <= k < |bs[1..]| && p == Ref(bs[1..][k].name);
          assert bs[1..][k] == bs[k + 1];
        }
      }
    }
  }

  /** Filling the template with a mapping that holds each block's content
      gives the contents joined in order. */
  lemma {:induction false} FillReferenceAll(bs: seq<Block>, sep: string, m: map<string, string>)
    requires forall k :: 0 <= k < |bs| ==> bs[k].name in m && m[bs[k].name] == bs[k].content
    ensures forall p :: p in ReferenceAll(bs, sep) && p.Ref? ==> p.name in m
    ensures Fill(ReferenceAll(bs, sep), m) == JoinContents(bs, sep)
    decreases |bs|
  {
    ReferenceAllPieces(bs, sep);
    if bs != [] {
      var rest := ReferenceAll(bs[1..], sep);
      var ps := ReferenceAll(bs, sep);
      assert forall k :: 0 <= k < |bs[1..]| ==> bs[1..][k] == bs[k + 1];
      FillReferenceAll(bs[1..], sep, m);
      assert ps[0] == Ref(bs[0].name);
      assert ps[1..][0] == Literal(sep);
      assert ps[1..][1..] == rest;
      calc {
        Fill(ps, m);
        m[bs[0].name] + Fill(ps[1..], m);
        bs[0].content + (sep + Fill(rest, m));
        { assert bs[0].content + (sep + Fill(rest, m)) == bs[0].content + sep + Fill(rest, m); }
        JoinContents(bs, sep);
      }
    }
  }

  /** Loading a block file written from trimmed blocks and rendering any
      template whose placeholders name non-empty blocks of the file, in any
      order and any number of times, gives the template with each placeholder
      replaced verbatim by the content of the last block of that name. */
  lemma {:induction false} LoadThenRender(bs: seq<Block>, ps: seq<Piece>)
    requires forall b :: b in bs ==> Encodable(b) && IsStripped(b.content)
    requires Renderable(ps, LastWins(bs))
    ensures LoadBlocks([EncodeBlocks(bs)]) == Success(LastWins(bs))
    ensures Render(Assemble(ps), LoadBlocks([EncodeBlocks(bs)]).value) == Success(Fill(ps, LastWins(bs)))
  {
    LoadEncodedRoundTrip(bs);
    RenderAssembled(ps, LastWins(bs));
  }

  /** In particular, with distinct non-empty blocks and a template that
      references every block once in file order, each placeholder followed by
      a `$`-free separator, the output is the contents joined in order. */
  lemma {:induction false} LoadThenRenderInOrder(bs: seq<Block>, sep: string)
    requires forall b :: b in bs ==> Encodable(b) && IsStripped(b.content) && b.content != ""
    requires DistinctNames(bs)
    requires '$' !in sep
    ensures LoadBlocks([EncodeBlocks(bs)]).Success?
    ensures Render(Assemble(ReferenceAll(bs, sep)), LoadBlocks([EncodeBlocks(bs)]).value) ==
      Success(JoinContents(bs, sep))
  {
    var m := LastWins(bs);
    var ps := ReferenceAll(bs, sep);
    forall k | 0 <= k < |bs| ensures bs[k].name in m && m[bs[k].name] == bs[k].content {
      assert LastOfName(bs, k);
      LastWinsValue(bs, k);
    }
    FillReferenceAll(bs, sep, m);
    ReferenceAllPieces(bs, sep);
    forall p | p in ps && p.Ref? ensures IsPlaceholderName(p.name) && Resolves(m, p.name) {
      var k :| 0 <= k < |bs| && p == Ref(bs[k].name);
      assert bs[k] in bs;
      BlockNameIsPlaceholderName(bs[k].name);
    }
    forall i | 0 <= i < |ps| && ps[i].Literal? ensures StandsAlone(ps[i].text, Assemble(ps[i + 1..])) {
      assert ps[i] in ps;
      DollarFreeStandsAlone(ps[i].text, Assemble(ps[i + 1..]));
    }
    LoadThenRender(bs, ps);
  }
}
