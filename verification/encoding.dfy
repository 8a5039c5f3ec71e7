/** Block files written from a list of blocks, one `<!name>content<!/name>`
    span after another. Writing and then loading such a file gives back the
    blocks: this pins down what extraction (render.py:33-42) and validation
    (render.py:47-97) accept. */
module Encoding {
  import opened Wrappers
  import opened Text
  import opened Markers
  import opened Validate
  import opened Blocks

  /** A block that can be written as a span: a well-formed name and content
      holding no `<`, so that it cannot contain a marker. */
  predicate Encodable(b: Block) {
    IsBlockName(b.name) && '<' !in b.content
  }

  /** The span of one block. */
  function EncodeBlock(b: Block): string {
    MarkerText(Open, b.name) + b.content + MarkerText(Close, b.name)
  }

  /** A block file holding the spans of the blocks, in order. */
  function EncodeBlocks(bs: seq<Block>): string {
    if bs == [] then [] else EncodeBlock(bs[0]) + EncodeBlocks(bs[1..])
  }

  /** Only the first character of a marker is `<`. */
  lemma {:induction false} MarkerTailHasNoLt(kind: Kind, name: string)
    requires IsBlockName(name)
    ensures '<' !in MarkerText(kind, name)[1..]
  {
    var t := MarkerText(kind, name);
    StartsWithMarkerText(t + ">", kind, name);
    assert (t + ">")[..|t|] == t;
    MarkerInteriorHasNoLt(t + ">", kind, name);
    forall i | 0 <= i < |t| - 1 ensures t[1..][i] != '<' {
      assert t[1..][i] == (t + ">")[i + 1];
    }
  }

  /** Text that begins with a marker's text is matched as that marker. */
  lemma {:induction false} MarkerTextMatched(u: string, kind: Kind, name: string)
    requires IsBlockName(name)
    requires |MarkerText(kind, name)| <= |u| && u[..|MarkerText(kind, name)|] == MarkerText(kind, name)
    ensures MarkerAt(u, kind) == Some(name)
  {
    StartsWithMarkerText(u, kind, name);
    MarkerAtFindsMarker(u, kind, name);
  }

  /** A marker of one kind is not a match for the other kind. */
  lemma {:induction false} OtherMarkerUnmatched(kind: Kind, other: Kind, name: string, rest: string)
    requires IsBlockName(name) && other != kind
    ensures MarkerAt(MarkerText(other, name) + rest, kind).None?
  {
    var t := MarkerText(other, name);
    var v := t + rest;
    StartsWithMarkerText(v, other, name);
    assert v[..|t|] == t;
    if MarkerAt(v, kind).Some? {
      if kind == Open {
        CloseIsNeverOpen(v, MarkerAt(v, kind).value, name);
      } else {
        CloseIsNeverOpen(v, name, MarkerAt(v, kind).value);
      }
    }
  }

  /** Where things sit in the span of a block followed by more text. */
  lemma {:induction false} SpanLayout(b: Block, rest: string)
    requires Encodable(b)
    ensures var o := MarkerText(Open, b.name); var c := MarkerText(Close, b.name);
      var u := EncodeBlock(b) + rest;
      && u == o + (b.content + (c + rest))
      && u[..|o|] == o
      && u[|o|..] == b.content + (c + rest)
      && u[|o| + |b.content|..] == c + rest
      && (forall i :: 1 <= i < |o| + |b.content| ==> u[i] != '<')
      && (c + rest)[..|c|] == c
      && (c + rest)[|c|..] == rest
      && (forall i :: 1 <= i < |c| ==> (c + rest)[i] != '<')
  {
    var o := MarkerText(Open, b.name);
    var c := MarkerText(Close, b.name);
    var u := EncodeBlock(b) + rest;
    assert u == o + (b.content + (c + rest));
    MarkerTailHasNoLt(Open, b.name);
    MarkerTailHasNoLt(Close, b.name);
    forall i | 1 <= i < |o| + |b.content| ensures u[i] != '<' {
      if i < |o| {
        assert u[i] == o[1..][i - 1];
      } else {
        assert u[i] == b.content[i - |o|];
      }
    }
    forall i | 1 <= i < |c| ensures (c + rest)[i] != '<' {
      assert (c + rest)[i] == c[1..][i - 1];
    }
  }

  /** The open-marker scan over a span finds its open marker and nothing else. */
  lemma {:induction false} ScanSpanOpen(b: Block, rest: string, off: nat, off2: nat)
    requires Encodable(b) && off2 == off + |EncodeBlock(b)|
    ensures Scan(EncodeBlock(b) + rest, Open, off) == [Marker(b.name, off)] + Scan(rest, Open, off2)
  {
    var o := MarkerText(Open, b.name);
    var c := MarkerText(Close, b.name);
    var u := EncodeBlock(b) + rest;
    var v := b.content + (c + rest);
    var p1 := off + |o|;
    var p2 := p1 + |b.content|;
    SpanLayout(b, rest);
    MarkerTextMatched(u, Open, b.name);
    ScanAtMarker(u, Open, b.name, |o|, v, off, p1);
    assert forall i :: 0 <= i < |b.content| ==> v[i] != '<';
    ScanSkipsPrefix(v, |b.content|, c + rest, Open, p1, p2);
    OtherMarkerUnmatched(Open, Close, b.name, rest);
    ScanSkipsNoMatch(c + rest, |c|, rest, Open, p2, off2);
  }

  /** The close-marker scan over a span finds its close marker and nothing else. */
  lemma {:induction false} ScanSpanClose(b: Block, rest: string, off: nat, off2: nat)
    requires Encodable(b) && off2 == off + |EncodeBlock(b)|
    ensures Scan(EncodeBlock(b) + rest, Close, off) ==
      [Marker(b.name, off2 - |MarkerText(Close, b.name)|)] + Scan(rest, Close, off2)
  {
    var o := MarkerText(Open, b.name);
    var c := MarkerText(Close, b.name);
    var u := EncodeBlock(b) + rest;
    var v := b.content + (c + rest);
    var p2 := off + |o| + |b.content|;
    assert |EncodeBlock(b)| == |o| + |b.content| + |c|;
    assert off2 - |c| == p2;
    SpanLayout(b, rest);
    OtherMarkerUnmatched(Close, Open, b.name, v);
    ScanSkipsNoMatch(u, |o| + |b.content|, c + rest, Close, off, p2);
    MarkerTextMatched(c + rest, Close, b.name);
    ScanAtMarker(c + rest, Close, b.name, |c|, rest, p2, off2);
    assert Scan(u, Close, off) == Scan(c + rest, Close, p2);
    assert Scan(c + rest, Close, p2) == [Marker(b.name, p2)] + Scan(rest, Close, off2);
    assert Marker(b.name, p2) == Marker(b.name, off2 - |MarkerText(Close, b.name)|);
  }

  /** The markers of one kind in a written file carry the blocks' names, in order. */
  lemma {:induction false} ScanEncoded(bs: seq<Block>, kind: Kind, off: nat)
    requires forall b :: b in bs ==> Encodable(b)
    ensures |Scan(EncodeBlocks(bs), kind, off)| == |bs|
    ensures forall k :: 0 <= k < |bs| ==> Scan(EncodeBlocks(bs), kind, off)[k].name == bs[k].name
    decreases |bs|
  {
    if bs != [] {
      var b := bs[0];
      var rest := EncodeBlocks(bs[1..]);
      var off2 := off + |EncodeBlock(b)|;
      var m;
      if kind == Open {
        ScanSpanOpen(b, rest, off, off2);
        m := Marker(b.name, off);
      } else {
        ScanSpanClose(b, rest, off, off2);
        m := Marker(b.name, off2 - |MarkerText(Close, b.name)|);
      }
      assert Scan(EncodeBlocks(bs), kind, off) == [m] + Scan(rest, kind, off2);
      ScanEncoded(bs[1..], kind, off2);
    }
  }

  /** A written file passes validation, with nothing to report. */
  lemma {:induction false} EncodedIsValid(bs: seq<Block>)
    requires forall b :: b in bs ==> Encodable(b)
    ensures ValidateBlockFile(EncodeBlocks(bs)) == Validation(true, [])
  {
    var s := EncodeBlocks(bs);
    ScanEncoded(bs, Open, 0);
    ScanEncoded(bs, Close, 0);
    assert OpenNames(s) == CloseNames(s);
    ValidIffNamesAgree(s);
    ValidIffNoDiagnostics(s);
  }

  /** The first occurrence of a literal that starts with a character the text
      before it lacks is right after that text. */
  lemma {:induction false} FindAfter(x: string, lit: string, y: string)
    requires lit != [] && lit[0] !in x
    ensures Find(x + lit + y, lit) == Some(|x|)
  {
    var v := x + lit + y;
    assert v[|x|..|x| + |lit|] == lit;
    assert OccursAt(v, lit, |x|);
    var r := Find(v, lit);
    assert r.Some? && r.value <= |x|;
    assert v[r.value] == lit[0] by {
      assert v[r.value..r.value + |lit|][0] == v[r.value];
    }
  }

  /** The blocks with their contents stripped. */
  function Trimmed(bs: seq<Block>): seq<Block> {
    if bs == [] then [] else [Block(bs[0].name, Strip(bs[0].content))] + Trimmed(bs[1..])
  }

  /** Extraction reads a span back as its block, with the content stripped,
      and goes on after the close marker. */
  lemma {:induction false} ExtractSpan(b: Block, rest: string)
    requires Encodable(b)
    ensures ExtractBlocks(EncodeBlock(b) + rest) == [Block(b.name, Strip(b.content))] + ExtractBlocks(rest)
  {
    var o := MarkerText(Open, b.name);
    var c := MarkerText(Close, b.name);
    var u := EncodeBlock(b) + rest;
    assert u[..|o|] == o;
    MarkerTextMatched(u, Open, b.name);
    assert |o| == MarkerLength(Open, b.name);
    var body := u[|o|..];
    assert body == b.content + c + rest;
    FindAfter(b.content, c, rest);
    assert body[..|b.content|] == b.content;
    assert body[|b.content| + |c|..] == rest;
  }

  /** Extraction reads a written file back as its blocks, contents stripped. */
  lemma {:induction false} ExtractEncoded(bs: seq<Block>)
    requires forall b :: b in bs ==> Encodable(b)
    ensures ExtractBlocks(EncodeBlocks(bs)) == Trimmed(bs)
    decreases |bs|
  {
    if bs != [] {
      ExtractSpan(bs[0], EncodeBlocks(bs[1..]));
      ExtractEncoded(bs[1..]);
    }
  }

  /** Stripping already stripped contents changes nothing. */
  lemma {:induction false} TrimmedStripped(bs: seq<Block>)
    requires forall b :: b in bs ==> IsStripped(b.content)
    ensures Trimmed(bs) == bs
    decreases |bs|
  {
    if bs != [] {
      var b := bs[0];
      StripIdempotent(b.content);
      assert Block(b.name, Strip(b.content)) == b;
      assert forall x :: x in bs[1..] ==> x in bs;
      TrimmedStripped(bs[1..]);
      assert bs == [b] + bs[1..];
    }
  }

  /** Loading a written file gives back its blocks, the last of each name
      winning, with contents stripped. */
  lemma {:induction false} LoadEncoded(bs: seq<Block>)
    requires forall b :: b in bs ==> Encodable(b)
    ensures LoadBlocks([EncodeBlocks(bs)]) == Success(LastWins(Trimmed(bs)))
  {
    EncodedIsValid(bs);
    ExtractEncoded(bs);
    LoadOneFile(EncodeBlocks(bs));
  }

  /** Writing blocks with trimmed contents and loading them back is the identity,
      up to the last block of each name winning. */
  lemma {:induction false} LoadEncodedRoundTrip(bs: seq<Block>)
    requires forall b :: b in bs ==> Encodable(b) && IsStripped(b.content)
    ensures LoadBlocks([EncodeBlocks(bs)]) == Success(LastWins(bs))
  {
    LoadEncoded(bs);
    TrimmedStripped(bs);
  }

  /** Extraction passes over text without `<`. */
  lemma {:induction false} ExtractSkipsPlainText(x: string, y: string)
    requires '<' !in x
    ensures ExtractBlocks(x + y) == ExtractBlocks(y)
    decreases |x|
  {
    if x == [] {
      assert x + y == y;
    } else {
      NoMarkerWithoutLt(x + y, Open);
      assert (x + y)[1..] == x[1..] + y;
      ExtractSkipsPlainText(x[1..], y);
    }
  }

  /** The open markers of a close marker followed by an open marker. */
  lemma {:induction false} CloseThenOpenMarkers(name: string)
    requires IsBlockName(name)
    ensures var c := MarkerText(Close, name);
      && FileMarkers(c + MarkerText(Open, name), Open) == [Marker(name, |c|)]
      && FileMarkers(c + MarkerText(Open, name), Close) == [Marker(name, 0)]
  {
    var o := MarkerText(Open, name);
    var c := MarkerText(Close, name);
    var s := c + o;
    var n := |c| + |o|;
    MarkerTailHasNoLt(Open, name);
    MarkerTailHasNoLt(Close, name);
    assert s[..|c|] == c && s[|c|..] == o && o[..|o|] == o && o[|o|..] == [] && o + [] == o;
    assert Scan(s, Open, 0) == [Marker(name, |c|)] by {
      OtherMarkerUnmatched(Open, Close, name, o);
      assert forall i :: 1 <= i < |c| ==> s[i] == c[1..][i - 1];
      ScanSkipsNoMatch(s, |c|, o, Open, 0, |c|);
      MarkerTextMatched(o, Open, name);
      ScanAtMarker(o, Open, name, |o|, [], |c|, n);
    }
    assert Scan(s, Close, 0) == [Marker(name, 0)] by {
      MarkerTextMatched(s, Close, name);
      ScanAtMarker(s, Close, name, |c|, o, 0, |c|);
      OtherMarkerUnmatched(Close, Open, name, []);
      assert forall i :: 1 <= i < |o| ==> o[i] == o[1..][i - 1];
      ScanSkipsNoMatch(o, |o|, [], Close, |c|, n);
    }
  }

  /** A close marker followed by an open marker yields no span. */
  lemma {:induction false} CloseThenOpenExtractsNothing(name: string)
    requires IsBlockName(name)
    ensures ExtractBlocks(MarkerText(Close, name) + MarkerText(Open, name)) == []
  {
    var o := MarkerText(Open, name);
    var c := MarkerText(Close, name);
    var s := c + o;
    OtherMarkerUnmatched(Open, Close, name, o);
    MarkerTailHasNoLt(Close, name);
    assert s[1..] == c[1..] + o;
    ExtractSkipsPlainText(c[1..], o);
    assert ExtractBlocks(o) == ExtractBlocks(o[1..]) by {
      assert o[..|o|] == o;
      MarkerTextMatched(o, Open, name);
      assert |o| == MarkerLength(Open, name);
      assert o[|o|..] == [];
    }
    MarkerTailHasNoLt(Open, name);
    ExtractSkipsPlainText(o[1..], []);
    assert o[1..] + [] == o[1..];
  }

  /** The validator pairs the i-th open marker with the i-th close marker by
      name only, never by position: a close marker that comes before its open
      marker passes, and the file then yields no block at all. */
  lemma {:induction false} CloseBeforeOpenAccepted(name: string)
    requires IsBlockName(name)
    ensures var s := MarkerText(Close, name) + MarkerText(Open, name);
      && ValidateBlockFile(s) == Validation(true, [])
      && LoadBlocks([s]) == Success(map[])
  {
    var s := MarkerText(Close, name) + MarkerText(Open, name);
    CloseThenOpenMarkers(name);
    assert OpenNames(s) == [name] == CloseNames(s);
    ValidIffNamesAgree(s);
    ValidIffNoDiagnostics(s);
    CloseThenOpenExtractsNothing(name);
    LoadOneFile(s);
  }
}
