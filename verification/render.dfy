/** The template renderer, `render` with its callback `replace_block`
    (render.py:112-131): one left-to-right pass of `re.sub` over the template
    that replaces every placeholder `${name}` by the block of that name and
    fails at the first placeholder whose block is missing or empty. */
module Rendering {
  import opened Wrappers
  import opened Text

  /** Why a render failed: the first placeholder whose block is missing or
      empty (render.py:126-128). */
  datatype RenderError = UnresolvedBlock(name: string)

  /** A name the placeholder pattern `[a-zA-Z0-9_-]+` accepts. */
  predicate IsPlaceholderName(name: string) {
    |name| > 0 && forall i :: 0 <= i < |name| ==> IsPlaceholderNameChar(name[i])
  }

  /** The exact text of a placeholder. */
  function PlaceholderText(name: string): string {
    "${" + name + "}"
  }

  /** `u` begins with the placeholder for `name`: `${`, the name, then `}`. */
  predicate StartsWithPlaceholder(u: string, name: string) {
    && IsPlaceholderName(name)
    && 2 + |name| < |u|
    && u[..2] == "${"
    && u[2..2 + |name|] == name
    && u[2 + |name|] == '}'
  }

  /** The placeholder text is what `StartsWithPlaceholder` looks for. */
  lemma {:induction false} StartsWithPlaceholderText(u: string, name: string)
    requires IsPlaceholderName(name)
    ensures StartsWithPlaceholder(u, name) <==>
      |PlaceholderText(name)| <= |u| && u[..|PlaceholderText(name)|] == PlaceholderText(name)
  {
    var t := PlaceholderText(name);
    if |t| <= |u| && u[..|t|] == t {
      assert u[..2] == t[..2];
      assert u[2..2 + |name|] == t[2..2 + |name|];
      assert u[2 + |name|] == t[2 + |name|];
    }
    if StartsWithPlaceholder(u, name) {
      assert u[..|t|] == u[..2] + u[2..2 + |name|] + [u[2 + |name|]];
    }
  }

  /** The placeholder pattern matched at the start of `u`: `${`, the greedy
      run of name characters, then `}`. */
  function PlaceholderAt(u: string): (r: Option<string>)
    ensures r.Some? ==> StartsWithPlaceholder(u, r.value)
  {
    if 2 <= |u| && u[..2] == "${" then
      var k := NameLength(u[2..], PlaceholderNames);
      if 0 < k && 2 + k < |u| && u[2 + k] == '}' then
        Some(u[2..2 + k])
      else
        None
    else
      None
  }

  /** A placeholder at the start of `u` is what `PlaceholderAt` reports: `}`
      ends the greedy run of name characters. */
  lemma {:induction false} PlaceholderAtFindsPlaceholder(u: string, name: string)
    requires StartsWithPlaceholder(u, name)
    ensures PlaceholderAt(u) == Some(name)
  {
    var v := u[2..];
    assert forall i :: 0 <= i < |name| ==> v[i] == name[i];
    assert v[|name|] == '}' && !IsPlaceholderNameChar(v[|name|]);
  }

  /** A placeholder starts with `$`. */
  lemma {:induction false} NoPlaceholderWithoutDollar(u: string)
    requires u == [] || u[0] != '$'
    ensures PlaceholderAt(u) == None
  {
    if 2 <= |u| {
      assert u[..2][0] == u[0];
    }
  }

  /** Only the first character of a placeholder is `$`. */
  lemma {:induction false} PlaceholderInteriorHasNoDollar(u: string, name: string)
    requires StartsWithPlaceholder(u, name)
    ensures forall j :: 1 <= j < |PlaceholderText(name)| ==> u[j] != '$'
  {
    forall j | 1 <= j < |PlaceholderText(name)| ensures u[j] != '$' {
      if j == 1 {
        assert u[1] == u[..2][1];
      } else if j < 2 + |name| {
        assert u[j] == u[2..2 + |name|][j - 2];
        NameClasses(u[j]);
      }
    }
  }

  /** The block for `name` exists and is not empty: the test `if not rendered`
      of render.py:127 on `blocks.get(key, "")`. */
  predicate Resolves(blocks: map<string, string>, name: string) {
    name in blocks && blocks[name] != ""
  }

  /** Puts `s` in front of a successful render; a failure passes through. */
  function Prepend(s: string, r: Result<string, RenderError>): Result<string, RenderError> {
    if r.Failure? then r else Success(s + r.value)
  }

  /** `re.sub` over the template: at a placeholder, its block's content is
      emitted and the scan resumes after the placeholder, without looking at
      the content again; elsewhere one character is copied. The first
      placeholder that does not resolve aborts the render, so no partial
      output is ever produced. */
  function Render(u: string, blocks: map<string, string>): Result<string, RenderError>
    decreases |u|
  {
    if u == [] then Success([])
    else if PlaceholderAt(u).Some? then
      var name := PlaceholderAt(u).value;
      if !Resolves(blocks, name) then Failure(UnresolvedBlock(name))
      else Prepend(blocks[name], Render(u[|PlaceholderText(name)|..], blocks))
    else Prepend([u[0]], Render(u[1..], blocks))
  }

  /** `u` holds a placeholder for `name` at offset `p`. */
  predicate PlaceholderAtOffset(u: string, p: nat, name: string) {
    p < |u| && StartsWithPlaceholder(u[p..], name)
  }

  /** Offsets into a suffix are offsets into the whole text, shifted. */
  lemma {:induction false} ShiftOffset(u: string, k: nat, p: nat, name: string)
    requires k <= |u|
    ensures PlaceholderAtOffset(u[k..], p, name) <==> PlaceholderAtOffset(u, p + k, name)
  {
    if p + k < |u| {
      assert u[k..][p..] == u[p + k..];
    }
  }

  /** `PlaceholderAt` reports exactly the placeholder `u` starts with. */
  lemma {:induction false} PlaceholderAtExact(u: string, name: string)
    ensures StartsWithPlaceholder(u, name) <==> PlaceholderAt(u) == Some(name)
  {
    if StartsWithPlaceholder(u, name) {
      PlaceholderAtFindsPlaceholder(u, name);
    }
  }

  /** A placeholder starts with `$`. */
  lemma {:induction false} PlaceholderStartsWithDollar(v: string, name: string)
    ensures StartsWithPlaceholder(v, name) ==> v[0] == '$'
  {
    if StartsWithPlaceholder(v, name) {
      assert v[..2][0] == v[0];
    }
  }

  /** Nothing but the placeholder itself starts within a placeholder. */
  lemma {:induction false} PlaceholderIsAlone(u: string, name: string)
    requires StartsWithPlaceholder(u, name)
    ensures forall m :: PlaceholderAtOffset(u, 0, m) <==> m == name
    ensures forall p: nat, m :: 0 < p < |PlaceholderText(name)| ==> !PlaceholderAtOffset(u, p, m)
  {
    assert u[0..] == u;
    forall m ensures PlaceholderAtOffset(u, 0, m) <==> m == name {
      PlaceholderAtExact(u, m);
      PlaceholderAtExact(u, name);
    }
    PlaceholderInteriorHasNoDollar(u, name);
    forall p: nat, m | 0 < p < |PlaceholderText(name)| ensures !PlaceholderAtOffset(u, p, m) {
      if p < |u| {
        PlaceholderStartsWithDollar(u[p..], m);
        assert u[p..][0] == u[p];
      }
    }
  }

  /** Where the pattern does not match, no placeholder starts. */
  lemma {:induction false} NoneAtStart(u: string)
    requires PlaceholderAt(u).None?
    ensures forall m :: !PlaceholderAtOffset(u, 0, m)
  {
    assert u[0..] == u;
    forall m ensures !PlaceholderAtOffset(u, 0, m) {
      PlaceholderAtExact(u, m);
    }
  }

  /** One step of the render at a match. */
  lemma {:induction false} RenderAtPlaceholder(u: string, name: string, blocks: map<string, string>)
    requires PlaceholderAt(u) == Some(name)
    ensures !Resolves(blocks, name) ==> Render(u, blocks) == Failure(UnresolvedBlock(name))
    ensures Resolves(blocks, name) ==>
      Render(u, blocks) == Prepend(blocks[name], Render(u[|PlaceholderText(name)|..], blocks))
  {
  }

  /** One step of the render where nothing matches. */
  lemma {:induction false} RenderAtText(u: string, blocks: map<string, string>)
    requires u != [] && PlaceholderAt(u).None?
    ensures Render(u, blocks) == Prepend([u[0]], Render(u[1..], blocks))
  {
  }

  /** Some placeholder of `u` names a block that is missing or empty. */
  ghost predicate HasUnresolved(u: string, blocks: map<string, string>) {
    exists p: nat, name :: PlaceholderAtOffset(u, p, name) && !Resolves(blocks, name)
  }

  /** Skipping a prefix whose placeholders all resolve keeps the answer. */
  lemma {:induction false} HasUnresolvedShift(u: string, w: nat, blocks: map<string, string>)
    requires w <= |u|
    requires forall p: nat, name :: p < w && PlaceholderAtOffset(u, p, name) ==> Resolves(blocks, name)
    ensures HasUnresolved(u, blocks) <==> HasUnresolved(u[w..], blocks)
  {
    if HasUnresolved(u, blocks) {
      var p: nat, name :| PlaceholderAtOffset(u, p, name) && !Resolves(blocks, name);
      ShiftOffset(u, w, p - w, name);
    }
    if HasUnresolved(u[w..], blocks) {
      var p: nat, name :| PlaceholderAtOffset(u[w..], p, name) && !Resolves(blocks, name);
      ShiftOffset(u, w, p, name);
    }
  }

  /** The render fails exactly when some placeholder of the template names a
      block that is missing or empty. */
  lemma {:induction false} RenderFailsIffUnresolved(u: string, blocks: map<string, string>)
    ensures Render(u, blocks).Failure? <==> HasUnresolved(u, blocks)
    decreases |u|
  {
    if u != [] {
      if PlaceholderAt(u).Some? {
        var name := PlaceholderAt(u).value;
        var w := |PlaceholderText(name)|;
        PlaceholderIsAlone(u, name);
        RenderAtPlaceholder(u, name, blocks);
        if Resolves(blocks, name) {
          RenderFailsIffUnresolved(u[w..], blocks);
          HasUnresolvedShift(u, w, blocks);
        } else {
          assert PlaceholderAtOffset(u, 0, name);
        }
      } else {
        NoneAtStart(u);
        RenderAtText(u, blocks);
        RenderFailsIffUnresolved(u[1..], blocks);
        HasUnresolvedShift(u, 1, blocks);
      }
    }
  }

  /** The placeholder at `p` is the leftmost one that does not resolve. */
  ghost predicate FirstUnresolvedAt(u: string, blocks: map<string, string>, p: nat, name: string) {
    && PlaceholderAtOffset(u, p, name)
    && !Resolves(blocks, name)
    && forall q: nat, m :: q < p && PlaceholderAtOffset(u, q, m) ==> Resolves(blocks, m)
  }

  /** The leftmost unresolved placeholder of a suffix is the leftmost of the
      whole text when every placeholder before the suffix resolves. */
  lemma {:induction false} FirstUnresolvedShift(u: string, w: nat, blocks: map<string, string>, p: nat, name: string)
    requires w <= |u|
    requires forall q: nat, m :: q < w && PlaceholderAtOffset(u, q, m) ==> Resolves(blocks, m)
    requires FirstUnresolvedAt(u[w..], blocks, p, name)
    ensures FirstUnresolvedAt(u, blocks, p + w, name)
  {
    ShiftOffset(u, w, p, name);
    forall q: nat, m | q < p + w && PlaceholderAtOffset(u, q, m) ensures Resolves(blocks, m) {
      if q >= w {
        ShiftOffset(u, w, q - w, m);
      }
    }
  }

  /** A failed render names the leftmost placeholder that does not resolve:
      `re.sub` calls `replace_block` on the matches from left to right and the
      first exception ends it. */
  lemma {:induction false} RenderReportsFirstUnresolved(u: string, blocks: map<string, string>)
    ensures Render(u, blocks).Failure? ==>
      exists p: nat :: FirstUnresolvedAt(u, blocks, p, Render(u, blocks).error.name)
    decreases |u|
  {
    if u != [] {
      var w := 1;
      if PlaceholderAt(u).Some? {
        var name := PlaceholderAt(u).value;
        w := |PlaceholderText(name)|;
        PlaceholderIsAlone(u, name);
        RenderAtPlaceholder(u, name, blocks);
        if !Resolves(blocks, name) {
          assert FirstUnresolvedAt(u, blocks, 0, name);
        }
      } else {
        NoneAtStart(u);
        RenderAtText(u, blocks);
      }
      if (PlaceholderAt(u).None? || Resolves(blocks, PlaceholderAt(u).value)) && Render(u[w..], blocks).Failure? {
        RenderReportsFirstUnresolved(u[w..], blocks);
        var p: nat :| FirstUnresolvedAt(u[w..], blocks, p, Render(u[w..], blocks).error.name);
        FirstUnresolvedShift(u, w, blocks, p, Render(u[w..], blocks).error.name);
      }
    }
  }

  /** A template without placeholders renders to itself. */
  lemma {:induction false} RenderIdentity(u: string, blocks: map<string, string>)
    requires forall p: nat, name :: !PlaceholderAtOffset(u, p, name)
    ensures Render(u, blocks) == Success(u)
    decreases |u|
  {
    if u != [] {
      assert u[0..] == u;
      var r := PlaceholderAt(u);
      assert r.Some? ==> PlaceholderAtOffset(u, 0, r.value);
      RenderAtText(u, blocks);
      forall p: nat, name ensures !PlaceholderAtOffset(u[1..], p, name) {
        ShiftOffset(u, 1, p, name);
      }
      RenderIdentity(u[1..], blocks);
      assert [u[0]] + u[1..] == u;
    }
  }

  /** In particular, a template without `$` renders to itself. */
  lemma {:induction false} RenderWithoutDollar(u: string, blocks: map<string, string>)
    requires '$' !in u
    ensures Render(u, blocks) == Success(u)
  {
    forall p: nat, name ensures !PlaceholderAtOffset(u, p, name) {
      if p < |u| {
        PlaceholderStartsWithDollar(u[p..], name);
        assert u[p..][0] == u[p];
      }
    }
    RenderIdentity(u, blocks);
  }

  lemma {:induction false} PrependTwice(a: string, b: string, r: Result<string, RenderError>)
    ensures Prepend(a, Prepend(b, r)) == Prepend(a + b, r)
  {
    if r.Success? {
      assert a + (b + r.value) == (a + b) + r.value;
    }
  }

  /** No placeholder of `t + rest` starts within `t`: `t` is copied as literal
      text even though it may hold a stray `$`. */
  ghost predicate StandsAlone(t: string, rest: string) {
    forall p: nat, name :: p < |t| ==> !PlaceholderAtOffset(t + rest, p, name)
  }

  /** Text without `$` stands alone in front of anything. */
  lemma {:induction false} DollarFreeStandsAlone(t: string, rest: string)
    requires '$' !in t
    ensures StandsAlone(t, rest)
  {
    forall p: nat, name | p < |t| ensures !PlaceholderAtOffset(t + rest, p, name) {
      PlaceholderStartsWithDollar((t + rest)[p..], name);
      assert (t + rest)[p..][0] == t[p];
    }
  }

  /** Text in which no placeholder starts is copied unchanged in front of the
      rest of the render. */
  lemma {:induction false} RenderPlainText(t: string, rest: string, blocks: map<string, string>)
    requires StandsAlone(t, rest)
    ensures Render(t + rest, blocks) == Prepend(t, Render(rest, blocks))
    decreases |t|
  {
    if t == [] {
      assert t + rest == rest;
      if Render(rest, blocks).Success? {
        assert t + Render(rest, blocks).value == Render(rest, blocks).value;
      }
    } else {
      var u := t + rest;
      assert u[0..] == u;
      var r := PlaceholderAt(u);
      if r.Some? {
        PlaceholderAtExact(u, r.value);
        assert PlaceholderAtOffset(u, 0, r.value);
      }
      RenderAtText(u, blocks);
      assert u[1..] == t[1..] + rest;
      forall p: nat, name | p < |t[1..]| ensures !PlaceholderAtOffset(t[1..] + rest, p, name) {
        ShiftOffset(u, 1, p, name);
      }
      RenderPlainText(t[1..], rest, blocks);
      PrependTwice([t[0]], t[1..], Render(rest, blocks));
      assert [t[0]] + t[1..] == t;
    }
  }

  /** A resolved placeholder is replaced by its block's content, which is not
      scanned again, in front of the rest of the render. */
  lemma {:induction false} RenderPlaceholder(name: string, rest: string, blocks: map<string, string>)
    requires IsPlaceholderName(name) && Resolves(blocks, name)
    ensures Render(PlaceholderText(name) + rest, blocks) == Prepend(blocks[name], Render(rest, blocks))
  {
    var t := PlaceholderText(name);
    StartsWithPlaceholderText(t + rest, name);
    assert (t + rest)[..|t|] == t;
    PlaceholderAtFindsPlaceholder(t + rest, name);
    RenderAtPlaceholder(t + rest, name, blocks);
    assert (t + rest)[|t|..] == rest;
  }

  /** A template read as a sequence of pieces: literal text, or a placeholder. */
  datatype Piece = Literal(text: string) | Ref(name: string)

  function PieceText(p: Piece): string {
    if p.Literal? then p.text else PlaceholderText(p.name)
  }

  /** The template text the pieces spell. */
  function Assemble(ps: seq<Piece>): string {
    if ps == [] then [] else PieceText(ps[0]) + Assemble(ps[1..])
  }

  /** Every placeholder names a non-empty block, and no placeholder of the
      template starts inside the text of a literal piece. */
  ghost predicate Renderable(ps: seq<Piece>, blocks: map<string, string>) {
    && (forall p :: p in ps && p.Ref? ==> IsPlaceholderName(p.name) && Resolves(blocks, p.name))
    && (forall i :: 0 <= i < |ps| && ps[i].Literal? ==> StandsAlone(ps[i].text, Assemble(ps[i + 1..])))
  }

  /** The expected output: literal text kept, each placeholder replaced by its
      block's content, in order. */
  function Fill(ps: seq<Piece>, blocks: map<string, string>): string
    requires forall p :: p in ps && p.Ref? ==> p.name in blocks
  {
    if ps == [] then []
    else (if ps[0].Literal? then ps[0].text else blocks[ps[0].name]) + Fill(ps[1..], blocks)
  }

  /** When every placeholder resolves, the render is the template with each
      placeholder replaced by its block's content verbatim and all other text
      kept in order. */
  lemma {:induction false} RenderAssembled(ps: seq<Piece>, blocks: map<string, string>)
    requires Renderable(ps, blocks)
    ensures Render(Assemble(ps), blocks) == Success(Fill(ps, blocks))
    decreases |ps|
  {
    if ps != [] {
      var rest := Assemble(ps[1..]);
      assert ps[0] in ps;
      if ps[0].Literal? {
        assert ps[0 + 1..] == ps[1..];
        RenderPlainText(ps[0].text, rest, blocks);
      } else {
        RenderPlaceholder(ps[0].name, rest, blocks);
      }
      var qs := ps[1..];
      assert forall p :: p in qs ==> p in ps;
      forall i | 0 <= i < |qs| && qs[i].Literal? ensures StandsAlone(qs[i].text, Assemble(qs[i + 1..])) {
        assert qs[i] == ps[i + 1] && qs[i + 1..] == ps[i + 1 + 1..];
      }
      RenderAssembled(qs, blocks);
    }
  }

  /** A placeholder between two `$`-free texts is replaced by its block. */
  lemma {:induction false} RenderOnePlaceholder(x: string, name: string, y: string, content: string)
    requires '$' !in x && '$' !in y
    requires IsPlaceholderName(name) && content != ""
    ensures Render(x + PlaceholderText(name) + y, map[name := content]) == Success(x + content + y)
  {
    var blocks := map[name := content];
    assert x + PlaceholderText(name) + y == x + (PlaceholderText(name) + y);
    DollarFreeStandsAlone(x, PlaceholderText(name) + y);
    RenderPlainText(x, PlaceholderText(name) + y, blocks);
    RenderPlaceholder(name, y, blocks);
    RenderWithoutDollar(y, blocks);
    assert x + (content + y) == x + content + y;
  }

  /** The greeting example: `Hello ${name}!` with `name` bound to `World`. */
  lemma {:induction false} RenderGreeting()
    ensures Render("Hello ${name}!", map["name" := "World"]) == Success("Hello World!")
  {
    assert IsPlaceholderName("name");
    RenderOnePlaceholder("Hello ", "name", "!", "World");
    assert "Hello " + PlaceholderText("name") + "!" == "Hello ${name}!";
    assert "Hello " + "World" + "!" == "Hello World!";
  }

  /** A stray `$` is ordinary text: `$5 ${x}` with `x` bound to `y` gives `$5 y`. */
  lemma {:induction false} RenderStrayDollar()
    ensures Render("$5 ${x}", map["x" := "y"]) == Success("$5 y")
  {
    var blocks := map["x" := "y"];
    var t, rest := "$5 ", PlaceholderText("x");
    assert IsPlaceholderName("x");
    forall p: nat, name | p < |t| ensures !PlaceholderAtOffset(t + rest, p, name) {
      var v := (t + rest)[p..];
      if p == 0 {
        assert v[..2][1] == '5';
      } else {
        PlaceholderStartsWithDollar(v, name);
        assert v[0] == t[p];
      }
    }
    RenderPlainText(t, rest, blocks);
    RenderPlaceholder("x", [], blocks);
    assert Render([], blocks) == Success([]);
    assert rest + [] == rest;
    assert t + rest == "$5 ${x}";
    assert t + ("y" + []) == "$5 y";
  }

  /** Substituted content is not scanned again: a block whose content is itself
      a placeholder comes out as that placeholder's text. */
  lemma {:induction false} RenderDoesNotRescan(a: string, b: string)
    requires IsPlaceholderName(a)
    ensures Render(PlaceholderText(a), map[a := PlaceholderText(b)]) == Success(PlaceholderText(b))
  {
    RenderOnePlaceholder([], a, [], PlaceholderText(b));
    assert [] + PlaceholderText(a) + [] == PlaceholderText(a);
    assert [] + PlaceholderText(b) + [] == PlaceholderText(b);
  }
}
