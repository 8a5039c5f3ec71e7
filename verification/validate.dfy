/** The structural check of a block file, `validate_block_file` (render.py:47-97).
    Python logs one warning per problem and returns a flag; the model returns
    the warnings as a list of diagnostics next to the flag. */
module Validate {
  import opened Markers

  /** One problem the validator reports. */
  datatype Diagnostic =
      /** A marker whose name never occurs among the markers of the other kind:
          opened but never closed (`Open`), or closed but never opened (`Close`). */
    | Unmatched(kind: Kind, name: string, pos: nat)
      /** The file has different numbers of open and close markers. */
    | CountMismatch(opens: nat, closes: nat)
      /** The i-th open marker and the i-th close marker carry different names. */
    | PairMismatch(open: Marker, close: Marker)

  datatype Validation = Validation(valid: bool, diagnostics: seq<Diagnostic>)

  function Names(ms: seq<Marker>): seq<string> {
    seq(|ms|, k requires 0 <= k < |ms| => ms[k].name)
  }

  /** One `Unmatched` diagnostic, in order, for every marker of `ms` whose
      name is not among `others` (render.py:72-81). */
  function UnmatchedDiagnostics(kind: Kind, ms: seq<Marker>, others: seq<string>): (ds: seq<Diagnostic>)
    ensures forall m :: m in ms && m.name !in others ==> Unmatched(kind, m.name, m.pos) in ds
    ensures forall d :: d in ds ==> d.Unmatched? && d.kind == kind && Marker(d.name, d.pos) in ms && d.name !in others
    ensures ds == [] <==> forall m :: m in ms ==> m.name in others
  {
    if ms == [] then []
    else
      var here := if ms[0].name in others then [] else [Unmatched(kind, ms[0].name, ms[0].pos)];
      var rest := UnmatchedDiagnostics(kind, ms[1..], others);
      assert forall m :: m in ms ==> m == ms[0] || m in ms[1..];
      here + rest
  }

  /** One `PairMismatch` for every index from `i` on at which the two lists
      disagree on the name, in index order (render.py:87-95). */
  function PairDiagnosticsFrom(opens: seq<Marker>, closes: seq<Marker>, i: nat): (ds: seq<Diagnostic>)
    requires |opens| == |closes| && i <= |opens|
    ensures forall k :: i <= k < |opens| && opens[k].name != closes[k].name ==> PairMismatch(opens[k], closes[k]) in ds
    ensures forall d :: d in ds ==> exists k :: i <= k < |opens| && d == PairMismatch(opens[k], closes[k]) && opens[k].name != closes[k].name
    ensures ds == [] <==> forall k :: i <= k < |opens| ==> opens[k].name == closes[k].name
    decreases |opens| - i
  {
    if i == |opens| then []
    else
      var here := if opens[i].name == closes[i].name then [] else [PairMismatch(opens[i], closes[i])];
      here + PairDiagnosticsFrom(opens, closes, i + 1)
  }

  /** One `PairMismatch` for every index at which the two lists disagree on the
      name (render.py:87-95). */
  function PairDiagnostics(opens: seq<Marker>, closes: seq<Marker>): (ds: seq<Diagnostic>)
    requires |opens| == |closes|
    ensures forall k :: 0 <= k < |opens| && opens[k].name != closes[k].name ==> PairMismatch(opens[k], closes[k]) in ds
    ensures forall d :: d in ds ==> d.PairMismatch? && exists k :: 0 <= k < |opens| && d.open == opens[k] && d.close == closes[k] && opens[k].name != closes[k].name
    ensures ds == [] <==> forall k :: 0 <= k < |opens| ==> opens[k].name == closes[k].name
  {
    PairDiagnosticsFrom(opens, closes, 0)
  }

  /** `validate_block_file`: the file is valid when every open name is closed
      somewhere, every close name is opened somewhere, the counts agree and the
      i-th open and i-th close share a name. Every failed check is reported;
      none stops the others. */
  function ValidateBlockFile(s: string): Validation {
    var opens := FileMarkers(s, Open);
    var closes := FileMarkers(s, Close);
    var openNames := Names(opens);
    var closeNames := Names(closes);
    var unclosed := UnmatchedDiagnostics(Open, opens, closeNames);
    var unopened := UnmatchedDiagnostics(Close, closes, openNames);
    var pairing :=
      if |opens| != |closes| then [CountMismatch(|opens|, |closes|)]
      else PairDiagnostics(opens, closes);
    Validation(ChecksPass(opens, closes), unclosed + unopened + pairing)
  }

  /** The four checks of the validator, each of which clears `is_valid` when it fails. */
  predicate ChecksPass(opens: seq<Marker>, closes: seq<Marker>) {
    && (forall m :: m in opens ==> m.name in Names(closes))
    && (forall m :: m in closes ==> m.name in Names(opens))
    && |opens| == |closes|
    && (forall k :: 0 <= k < |opens| && k < |closes| ==> opens[k].name == closes[k].name)
  }

  /** The four checks together amount to equality of the two name lists. */
  lemma {:induction false} ChecksPassIffNamesEqual(opens: seq<Marker>, closes: seq<Marker>)
    ensures ChecksPass(opens, closes) <==> Names(opens) == Names(closes)
  {
    if Names(opens) == Names(closes) {
      forall m | m in opens ensures m.name in Names(closes) {
        var k :| 0 <= k < |opens| && opens[k] == m;
        assert Names(closes)[k] == m.name;
      }
      forall m | m in closes ensures m.name in Names(opens) {
        var k :| 0 <= k < |closes| && closes[k] == m;
        assert Names(opens)[k] == m.name;
      }
      assert |opens| == |Names(opens)| == |Names(closes)| == |closes|;
      forall k | 0 <= k < |opens| ensures opens[k].name == closes[k].name {
        assert Names(opens)[k] == Names(closes)[k];
      }
    }
    if ChecksPass(opens, closes) {
      assert |Names(opens)| == |Names(closes)|;
      forall k | 0 <= k < |opens| ensures Names(opens)[k] == Names(closes)[k] {
        assert opens[k].name == closes[k].name;
      }
    }
  }

  /** The open and close names of a file, in position order. */
  function OpenNames(s: string): seq<string> { Names(FileMarkers(s, Open)) }
  function CloseNames(s: string): seq<string> { Names(FileMarkers(s, Close)) }

  /** The flag is false exactly when at least one problem was reported. */
  lemma {:induction false} ValidIffNoDiagnostics(s: string)
    ensures ValidateBlockFile(s).valid <==> ValidateBlockFile(s).diagnostics == []
  {
  }

  /** A file is valid exactly when its open names and its close names, each in
      position order, are the same list. */
  lemma {:induction false} ValidIffNamesAgree(s: string)
    ensures ValidateBlockFile(s).valid <==> OpenNames(s) == CloseNames(s)
  {
    ChecksPassIffNamesEqual(FileMarkers(s, Open), FileMarkers(s, Close));
  }

  /** Every problem is reported. */
  lemma {:induction false} DiagnosticsComplete(s: string)
    ensures var opens := FileMarkers(s, Open);
      var closes := FileMarkers(s, Close);
      var ds := ValidateBlockFile(s).diagnostics;
      && (forall m :: m in opens && m.name !in Names(closes) ==> Unmatched(Open, m.name, m.pos) in ds)
      && (forall m :: m in closes && m.name !in Names(opens) ==> Unmatched(Close, m.name, m.pos) in ds)
      && (|opens| != |closes| ==> CountMismatch(|opens|, |closes|) in ds)
      && (|opens| == |closes| ==> forall k :: 0 <= k < |opens| && opens[k].name != closes[k].name ==>
            PairMismatch(opens[k], closes[k]) in ds)
  {
  }

  /** Every report names a real problem. */
  lemma {:induction false} DiagnosticsSound(s: string)
    ensures var opens := FileMarkers(s, Open);
      var closes := FileMarkers(s, Close);
      forall d :: d in ValidateBlockFile(s).diagnostics ==>
        || (d.Unmatched? && d.kind == Open && Marker(d.name, d.pos) in opens && d.name !in Names(closes))
        || (d.Unmatched? && d.kind == Close && Marker(d.name, d.pos) in closes && d.name !in Names(opens))
        || (d == CountMismatch(|opens|, |closes|) && |opens| != |closes|)
        || (d.PairMismatch? && |opens| == |closes| &&
            exists k :: 0 <= k < |opens| && d.open == opens[k] && d.close == closes[k] && opens[k].name != closes[k].name)
  {
  }

  /** A file without any marker is valid. */
  lemma {:induction false} NoMarkersIsValid(s: string)
    requires forall p, kind, name :: 0 <= p < |s| ==> !StartsWithMarker(s[p..], kind, name)
    ensures ValidateBlockFile(s) == Validation(true, [])
  {
    MarkersExact(s, Open);
    MarkersExact(s, Close);
    assert forall i :: 0 <= i < |FileMarkers(s, Open)| ==> FileMarkers(s, Open)[i] in FileMarkers(s, Open);
    assert forall i :: 0 <= i < |FileMarkers(s, Close)| ==> FileMarkers(s, Close)[i] in FileMarkers(s, Close);
  }
}
