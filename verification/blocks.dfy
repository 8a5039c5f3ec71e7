/** Block extraction and loading, `loads_blocks` (render.py:25-44): every file
    is validated, then its `<!name> content <!/name>` spans are extracted with
    the pattern of render.py:33 and merged into one mapping. */
module Blocks {
  import opened Wrappers
  import opened Text
  import opened Markers
  import opened Validate

  /** One extracted span: a block name and its trimmed content. */
  datatype Block = Block(name: string, content: string)

  /** Why a load failed: the first file that does not validate, with the
      problems the validator reported for it. */
  datatype LoadError = InvalidBlockFile(index: nat, diagnostics: seq<Diagnostic>)

  /** `v[k..]` begins with `lit`. */
  predicate OccursAt(v: string, lit: string, k: nat) {
    k + |lit| <= |v| && v[k..k + |lit|] == lit
  }

  /** The earliest occurrence of `lit` in `v`: the lazy `.*?` of render.py:33
      stops at the first place where the close marker matches. */
  function Find(v: string, lit: string): (r: Option<nat>)
    ensures r.Some? ==> OccursAt(v, lit, r.value)
    ensures forall j: nat :: (r.None? || j < r.value) ==> !OccursAt(v, lit, j)
    decreases |v|
  {
    if |v| < |lit| then None
    else if v[..|lit|] == lit then Some(0)
    else
      var r := Find(v[1..], lit);
      assert forall j: nat :: 1 <= j ==> (OccursAt(v, lit, j) <==> OccursAt(v[1..], lit, j - 1)) by {
        forall j: nat | 1 <= j ensures OccursAt(v, lit, j) <==> OccursAt(v[1..], lit, j - 1) {
          if j + |lit| <= |v| {
            assert v[1..][j - 1..j - 1 + |lit|] == v[j..j + |lit|];
          }
        }
      }
      if r.Some? then Some(r.value + 1) else None
  }

  /** The span `re.finditer` matches at the very start of `u` with the pattern
      of render.py:33, if any, and the text after it: at an open marker the
      content runs to the first later close marker of the same name and is
      stripped (render.py:40). */
  function SpanAt(u: string): (r: Option<(Block, string)>)
    ensures r.Some? ==> IsBlockName(r.value.0.name) && IsStripped(r.value.0.content)
    ensures r.Some? ==> |r.value.1| < |u|
  {
    match MarkerAt(u, Open)
    case None => None
    case Some(name) =>
      var body := u[MarkerLength(Open, name)..];
      var close := MarkerText(Close, name);
      match Find(body, close)
      case None => None
      case Some(end) => Some((Block(name, Strip(body[..end])), body[end + |close|..]))
  }

  /** `Find` reports the first occurrence, whichever it is. */
  lemma {:induction false} FindFirst(v: string, lit: string, e: nat)
    requires OccursAt(v, lit, e)
    requires forall j: nat :: j < e ==> !OccursAt(v, lit, j)
    ensures Find(v, lit) == Some(e)
  {
    var r := Find(v, lit);
    assert !(r.None? || e < r.value);
    assert !(r.value < e);
  }

  /** The text after the open marker for `name` at the start of `u`. */
  function AfterOpen(u: string, name: string): string
    requires MarkerLength(Open, name) <= |u|
  {
    u[MarkerLength(Open, name)..]
  }

  /** A span starts wherever an open marker is followed, at some later point,
      by the close marker of its name; its content runs to the first such
      close marker. */
  lemma {:induction false} SpanAtFirstClose(u: string, name: string, e: nat)
    requires StartsWithMarker(u, Open, name)
    requires OccursAt(AfterOpen(u, name), MarkerText(Close, name), e)
    requires forall j: nat :: j < e ==> !OccursAt(AfterOpen(u, name), MarkerText(Close, name), j)
    ensures var body := AfterOpen(u, name);
      SpanAt(u) == Some((Block(name, Strip(body[..e])), body[e + |MarkerText(Close, name)|..]))
  {
    var body := AfterOpen(u, name);
    var close := MarkerText(Close, name);
    MarkerAtFindsMarker(u, Open, name);
    assert u[MarkerLength(Open, name)..] == body;
    FindFirst(body, close, e);
    assert MarkerAt(u, Open) == Some(name) && Find(body, close) == Some(e);
  }

  /** An open marker whose close marker never follows starts no span, and
      neither does a position without an open marker. */
  lemma {:induction false} SpanAtNone(u: string)
    ensures SpanAt(u).None? <==>
      forall name :: StartsWithMarker(u, Open, name) ==>
        forall j: nat :: !OccursAt(AfterOpen(u, name), MarkerText(Close, name), j)
  {
    match MarkerAt(u, Open)
    case None =>
      forall name | StartsWithMarker(u, Open, name) ensures false {
        MarkerAtFindsMarker(u, Open, name);
      }
    case Some(name) =>
      forall name' | StartsWithMarker(u, Open, name') ensures name' == name {
        MarkerUnique(u, Open, name, name');
      }
      var close := MarkerText(Close, name);
      match Find(AfterOpen(u, name), close)
      case None =>
      case Some(e) =>
        assert OccursAt(AfterOpen(u, name), close, e);
  }

  /** The spans of a file, left to right, as `re.finditer` finds them: after a
      span the search resumes behind its close marker; an open marker without
      a later close marker of its name yields nothing, and the search moves on
      by one character. */
  function ExtractBlocks(u: string): seq<Block>
    decreases |u|
  {
    if u == [] then []
    else
      match SpanAt(u)
      case Some((b, rest)) => [b] + ExtractBlocks(rest)
      case None => ExtractBlocks(u[1..])
  }

  lemma {:induction false} AllTrimmedCons(b: Block, bs: seq<Block>)
    requires IsBlockName(b.name) && IsStripped(b.content)
    requires forall x :: x in bs ==> IsBlockName(x.name) && IsStripped(x.content)
    ensures forall x :: x in [b] + bs ==> IsBlockName(x.name) && IsStripped(x.content)
  {
  }

  /** Every extracted block has a well-formed name and content with no
      leading or trailing whitespace. */
  lemma {:induction false} ExtractedBlocksAreTrimmed(u: string)
    ensures forall b :: b in ExtractBlocks(u) ==> IsBlockName(b.name) && IsStripped(b.content)
    decreases |u|
  {
    if u != [] {
      match SpanAt(u)
      case Some((b, rest)) =>
        ExtractedBlocksAreTrimmed(rest);
        AllTrimmedCons(b, ExtractBlocks(rest));
      case None =>
        ExtractedBlocksAreTrimmed(u[1..]);
    }
  }

  /** The dict comprehension of render.py:39-42: later spans overwrite earlier
      ones of the same name. */
  function LastWins(bs: seq<Block>): map<string, string> {
    if bs == [] then map[]
    else LastWins(bs[..|bs| - 1])[bs[|bs| - 1].name := bs[|bs| - 1].content]
  }

  /** The names of a list of blocks. */
  function BlockNames(bs: seq<Block>): set<string> {
    set b | b in bs :: b.name
  }

  /** `b` is the last block of `bs` with its name. */
  predicate LastOfName(bs: seq<Block>, k: nat) {
    k < |bs| && forall j :: k < j < |bs| ==> bs[j].name != bs[k].name
  }

  /** The mapping holds exactly the names of the blocks. */
  lemma {:induction false} LastWinsKeys(bs: seq<Block>)
    ensures LastWins(bs).Keys == BlockNames(bs)
    decreases |bs|
  {
    if bs != [] {
      var init := bs[..|bs| - 1];
      var last := bs[|bs| - 1];
      LastWinsKeys(init);
      assert bs == init + [last];
      assert BlockNames(bs) == BlockNames(init) + {last.name};
    }
  }

  /** Each name maps to the content of the last block of that name. */
  lemma {:induction false} LastWinsValue(bs: seq<Block>, k: nat)
    requires LastOfName(bs, k)
    ensures bs[k].name in LastWins(bs)
    ensures LastWins(bs)[bs[k].name] == bs[k].content
    decreases |bs|
  {
    var init := bs[..|bs| - 1];
    var last := bs[|bs| - 1];
    if k < |init| {
      assert init[k] == bs[k];
      assert forall j :: k < j < |init| ==> init[j] == bs[j];
      assert LastOfName(init, k);
      LastWinsValue(init, k);
      assert bs[k].name != last.name;
    }
  }

  /** The mapping one valid file contributes. */
  function FileBlocks(s: string): map<string, string> {
    LastWins(ExtractBlocks(s))
  }

  /** What reading one block file yields: its blocks, or the validator's report. */
  type FileRead = Result<map<string, string>, seq<Diagnostic>>

  /** One iteration of the loop of render.py:35-43 for a file's text: the
      validator's report if it rejects the file, otherwise the file's blocks. */
  function ReadBlockFile(s: string): FileRead {
    var v := ValidateBlockFile(s);
    if v.valid then Success(FileBlocks(s)) else Failure(v.diagnostics)
  }

  /** `loads_blocks` over the files in the order given: the first invalid file
      aborts the load (render.py:37-38); otherwise each file's blocks are merged
      into the mapping, overwriting earlier ones (`blocks.update`, render.py:43). */
  function LoadBlocks(files: seq<string>): Result<map<string, string>, LoadError> {
    Merge(seq(|files|, k requires 0 <= k < |files| => ReadBlockFile(files[k])), 0, map[])
  }

  /** The merge loop over the per-file outcomes, from file `i` on, with the
      mapping `acc` built so far. */
  function Merge(outcomes: seq<FileRead>, i: nat, acc: map<string, string>)
    : Result<map<string, string>, LoadError>
    requires i <= |outcomes|
    decreases |outcomes| - i
  {
    if i == |outcomes| then Success(acc)
    else if outcomes[i].Failure? then Failure(InvalidBlockFile(i, outcomes[i].error))
    else Merge(outcomes, i + 1, acc + outcomes[i].value)
  }

  /** Every value of the last-wins mapping is the content of one of the blocks. */
  lemma {:induction false} LastWinsTrimmed(bs: seq<Block>)
    requires forall b :: b in bs ==> IsBlockName(b.name) && IsStripped(b.content)
    ensures forall n :: n in LastWins(bs) ==> IsBlockName(n) && IsStripped(LastWins(bs)[n])
    decreases |bs|
  {
    if bs != [] {
      LastWinsTrimmed(bs[..|bs| - 1]);
    }
  }

  /** A file contributes well-formed names bound to trimmed contents. */
  lemma {:induction false} FileBlocksTrimmed(s: string)
    ensures forall n :: n in FileBlocks(s) ==> IsBlockName(n) && IsStripped(FileBlocks(s)[n])
  {
    ExtractedBlocksAreTrimmed(s);
    LastWinsTrimmed(ExtractBlocks(s));
  }

  /** The merge stops at the first failed outcome at or after `i`, if any. */
  lemma {:induction false} MergeFails(outcomes: seq<FileRead>, i: nat, acc: map<string, string>)
    requires i <= |outcomes|
    ensures Merge(outcomes, i, acc).Failure? <==> exists j :: i <= j < |outcomes| && outcomes[j].Failure?
    ensures Merge(outcomes, i, acc).Failure? ==>
      var e := Merge(outcomes, i, acc).error;
      && i <= e.index < |outcomes|
      && outcomes[e.index] == Failure(e.diagnostics)
      && forall j :: i <= j < e.index ==> outcomes[j].Success?
    decreases |outcomes| - i
  {
    if i < |outcomes| && outcomes[i].Success? {
      MergeFails(outcomes, i + 1, acc + outcomes[i].value);
    }
  }

  /** Read `j` is the last successful outcome that defines block `n`. */
  predicate DefinesLast(outcomes: seq<FileRead>, j: nat, n: string) {
    && j < |outcomes|
    && outcomes[j].Success? && n in outcomes[j].value
    && forall k :: j < k < |outcomes| && outcomes[k].Success? ==> n !in outcomes[k].value
  }

  /** The merge holds `acc` overwritten, in order, by every outcome from `i` on. */
  lemma {:induction false} MergeLastWins(outcomes: seq<FileRead>, i: nat, acc: map<string, string>)
    requires i <= |outcomes|
    requires Merge(outcomes, i, acc).Success?
    ensures forall n :: n in Merge(outcomes, i, acc).value <==>
      n in acc || exists j :: i <= j < |outcomes| && outcomes[j].Success? && n in outcomes[j].value
    ensures forall j, n :: i <= j && DefinesLast(outcomes, j, n) ==>
      n in Merge(outcomes, i, acc).value && Merge(outcomes, i, acc).value[n] == outcomes[j].value[n]
    ensures forall n :: n in acc && (forall j :: i <= j < |outcomes| && outcomes[j].Success? ==> n !in outcomes[j].value) ==>
      n in Merge(outcomes, i, acc).value && Merge(outcomes, i, acc).value[n] == acc[n]
    decreases |outcomes| - i
  {
    if i < |outcomes| {
      MergeLastWins(outcomes, i + 1, acc + outcomes[i].value);
    }
  }

  /** The merge keeps a property every outcome and `acc` have. */
  lemma {:induction false} MergeTrimmed(outcomes: seq<FileRead>, i: nat, acc: map<string, string>)
    requires i <= |outcomes|
    requires forall n :: n in acc ==> IsBlockName(n) && IsStripped(acc[n])
    requires forall j, n :: i <= j < |outcomes| && outcomes[j].Success? && n in outcomes[j].value ==>
      IsBlockName(n) && IsStripped(outcomes[j].value[n])
    requires Merge(outcomes, i, acc).Success?
    ensures forall n :: n in Merge(outcomes, i, acc).value ==> IsBlockName(n) && IsStripped(Merge(outcomes, i, acc).value[n])
    decreases |outcomes| - i
  {
    if i < |outcomes| {
      MergeTrimmed(outcomes, i + 1, acc + outcomes[i].value);
    }
  }

  /** What a file's outcome says about its validation. */
  lemma {:induction false} ReadBlockFileOutcome(s: string)
    ensures ReadBlockFile(s).Failure? <==> !ValidateBlockFile(s).valid
    ensures ReadBlockFile(s).Failure? ==>
      ReadBlockFile(s).error == ValidateBlockFile(s).diagnostics && ReadBlockFile(s).error != []
    ensures ReadBlockFile(s).Success? ==> ReadBlockFile(s).value == FileBlocks(s)
  {
    ValidIffNoDiagnostics(s);
  }

  /** The outcomes `LoadBlocks` merges, one per file. */
  lemma {:induction false} LoadBlocksOutcomes(files: seq<string>) returns (outcomes: seq<FileRead>)
    ensures LoadBlocks(files) == Merge(outcomes, 0, map[])
    ensures |outcomes| == |files|
    ensures forall j :: 0 <= j < |files| ==> outcomes[j] == ReadBlockFile(files[j])
  {
    outcomes := seq(|files|, k requires 0 <= k < |files| => ReadBlockFile(files[k]));
  }

  /** Loading fails exactly when some file is invalid, and it names the first
      such file with the problems the validator found in it. */
  lemma {:induction false} LoadFailsIffSomeInvalid(files: seq<string>)
    ensures LoadBlocks(files).Failure? <==> exists j :: 0 <= j < |files| && !ValidateBlockFile(files[j]).valid
    ensures LoadBlocks(files).Failure? ==>
      var e := LoadBlocks(files).error;
      && e.index < |files|
      && !ValidateBlockFile(files[e.index]).valid
      && e.diagnostics == ValidateBlockFile(files[e.index]).diagnostics
      && e.diagnostics != []
      && forall j :: 0 <= j < e.index ==> ValidateBlockFile(files[j]).valid
  {
    var outcomes := LoadBlocksOutcomes(files);
    MergeFails(outcomes, 0, map[]);
    forall j | 0 <= j < |files| {
      ReadBlockFileOutcome(files[j]);
    }
  }

  /** After a successful load every outcome is a file's blocks. */
  lemma {:induction false} LoadedOutcomes(files: seq<string>) returns (outcomes: seq<FileRead>)
    requires LoadBlocks(files).Success?
    ensures LoadBlocks(files) == Merge(outcomes, 0, map[])
    ensures |outcomes| == |files|
    ensures forall j :: 0 <= j < |files| ==> outcomes[j] == Success(FileBlocks(files[j]))
  {
    outcomes := LoadBlocksOutcomes(files);
    MergeFails(outcomes, 0, map[]);
    forall j | 0 <= j < |files| ensures outcomes[j] == Success(FileBlocks(files[j])) {
      ReadBlockFileOutcome(files[j]);
    }
  }

  /** A successful load holds exactly the blocks the files define. */
  lemma {:induction false} LoadedNames(files: seq<string>)
    requires LoadBlocks(files).Success?
    ensures forall n :: n in LoadBlocks(files).value <==> exists j :: 0 <= j < |files| && n in FileBlocks(files[j])
  {
    var outcomes := LoadedOutcomes(files);
    MergeLastWins(outcomes, 0, map[]);
  }

  /** Each loaded block has the content from the last file that defines it. */
  lemma {:induction false} LoadedLastWins(files: seq<string>, j: nat, n: string)
    requires LoadBlocks(files).Success?
    requires j < |files| && n in FileBlocks(files[j])
    requires forall k :: j < k < |files| ==> n !in FileBlocks(files[k])
    ensures n in LoadBlocks(files).value && LoadBlocks(files).value[n] == FileBlocks(files[j])[n]
  {
    var outcomes := LoadedOutcomes(files);
    assert DefinesLast(outcomes, j, n);
    MergeLastWins(outcomes, 0, map[]);
  }

  /** Every loaded block has a well-formed name and trimmed content. */
  lemma {:induction false} LoadedBlocksTrimmed(files: seq<string>)
    requires LoadBlocks(files).Success?
    ensures forall n :: n in LoadBlocks(files).value ==> IsBlockName(n) && IsStripped(LoadBlocks(files).value[n])
  {
    var outcomes := LoadBlocksOutcomes(files);
    forall j, n | 0 <= j < |outcomes| && outcomes[j].Success? && n in outcomes[j].value
      ensures IsBlockName(n) && IsStripped(outcomes[j].value[n])
    {
      ReadBlockFileOutcome(files[j]);
      FileBlocksTrimmed(files[j]);
    }
    MergeTrimmed(outcomes, 0, map[]);
  }

  /** Loading a single file yields its blocks, or its report if it is invalid. */
  lemma {:induction false} LoadOneFile(s: string)
    ensures ValidateBlockFile(s).valid ==> LoadBlocks([s]) == Success(FileBlocks(s))
    ensures !ValidateBlockFile(s).valid ==>
      LoadBlocks([s]) == Failure(InvalidBlockFile(0, ValidateBlockFile(s).diagnostics))
  {
    var outcomes := LoadBlocksOutcomes([s]);
    ReadBlockFileOutcome(s);
    assert map[] + FileBlocks(s) == FileBlocks(s);
  }
}
