/** Recognition of the tagged-block markers `<!name>` and `<!/name>`, and the
    left-to-right, non-overlapping scan that `re.finditer` performs for them
    (render.py:56-64). */
module Markers {
  import opened Wrappers
  import opened Text

  /** An open marker `<!name>` or a close marker `<!/name>`. */
  datatype Kind = Open | Close

  /** One marker found in a file: its name and the offset of its `<`. */
  datatype Marker = Marker(name: string, pos: nat)

  function Lead(kind: Kind): string {
    if kind == Open then "<!" else "<!/"
  }

  /** The exact text of a marker. */
  function MarkerText(kind: Kind, name: string): string {
    Lead(kind) + name + ">"
  }

  /** Number of characters a marker occupies. */
  function MarkerLength(kind: Kind, name: string): nat {
    |Lead(kind)| + |name| + 1
  }

  predicate IsBlockName(name: string) {
    |name| > 0 && forall i :: 0 <= i < |name| ==> IsBlockNameChar(name[i])
  }

  /** `u` begins with the marker of the given kind and name: the lead, the
      name, then `>`. */
  predicate StartsWithMarker(u: string, kind: Kind, name: string) {
    var l := |Lead(kind)|;
    && IsBlockName(name)
    && l + |name| < |u|
    && u[..l] == Lead(kind)
    && u[l..l + |name|] == name
    && u[l + |name|] == '>'
  }

  /** The marker text is what `StartsWithMarker` looks for. */
  lemma {:induction false} StartsWithMarkerText(u: string, kind: Kind, name: string)
    requires IsBlockName(name)
    ensures StartsWithMarker(u, kind, name) <==>
      |MarkerText(kind, name)| <= |u| && u[..|MarkerText(kind, name)|] == MarkerText(kind, name)
  {
    var l := |Lead(kind)|;
    var t := MarkerText(kind, name);
    if |t| <= |u| && u[..|t|] == t {
      assert u[..l] == t[..l];
      assert u[l..l + |name|] == t[l..l + |name|];
      assert u[l + |name|] == t[l + |name|];
    }
    if StartsWithMarker(u, kind, name) {
      assert u[..|t|] == u[..l] + u[l..l + |name|] + [u[l + |name|]];
    }
  }

  /** The marker pattern matched at the start of `u`: the lead, the greedy run
      of name characters, then `>`. */
  function MarkerAt(u: string, kind: Kind): (r: Option<string>)
    ensures r.Some? ==> StartsWithMarker(u, kind, r.value)
  {
    var lead := Lead(kind);
    if |lead| <= |u| && u[..|lead|] == lead then
      var k := NameLength(u[|lead|..], BlockNames);
      if 0 < k && |lead| + k < |u| && u[|lead| + k] == '>' then
        Some(u[|lead|..|lead| + k])
      else
        None
    else
      None
  }

  /** Inside a marker, the name is exactly the greedy run of name characters
      after the lead, because `>` ends it. */
  lemma {:induction false} MarkerNameIsLongestRun(u: string, kind: Kind, name: string)
    requires StartsWithMarker(u, kind, name)
    ensures NameLength(u[|Lead(kind)|..], BlockNames) == |name|
    ensures u[|Lead(kind)| + |name|] == '>'
    ensures u[|Lead(kind)|..|Lead(kind)| + |name|] == name
  {
    var lead := Lead(kind);
    var v := u[|lead|..];
    assert forall i :: 0 <= i < |name| ==> v[i] == name[i];
    assert v[|name|] == '>' && !IsBlockNameChar(v[|name|]);
  }

  /** A marker starts with `<`. */
  lemma {:induction false} NoMarkerWithoutLt(u: string, kind: Kind)
    requires u == [] || u[0] != '<'
    ensures MarkerAt(u, kind) == None
  {
    if u != [] && |Lead(kind)| <= |u| {
      assert u[..|Lead(kind)|][0] == u[0];
    }
  }

  /** Conversely, a marker at the start of `u` is what `MarkerAt` reports. */
  lemma {:induction false} MarkerAtFindsMarker(u: string, kind: Kind, name: string)
    requires StartsWithMarker(u, kind, name)
    ensures MarkerAt(u, kind) == Some(name)
  {
    MarkerNameIsLongestRun(u, kind, name);
  }

  /** A text starts with at most one marker of each kind. */
  lemma {:induction false} MarkerUnique(u: string, kind: Kind, n1: string, n2: string)
    requires StartsWithMarker(u, kind, n1) && StartsWithMarker(u, kind, n2)
    ensures n1 == n2
  {
    MarkerNameIsLongestRun(u, kind, n1);
    MarkerNameIsLongestRun(u, kind, n2);
  }

  /** A close marker is never taken for an open marker: `/` is not a name character. */
  lemma {:induction false} CloseIsNeverOpen(u: string, name: string, name': string)
    ensures !(StartsWithMarker(u, Open, name) && StartsWithMarker(u, Close, name'))
  {
    assert StartsWithMarker(u, Close, name') ==> u[2] == u[..3][2] == '/';
    assert StartsWithMarker(u, Open, name) ==> u[2] == u[2..2 + |name|][0] == name[0];
  }

  /** `re.finditer`: markers from left to right; after a match the search
      resumes just past it, otherwise one character further on. `off` is the
      offset of `u` within the whole file. */
  function Scan(u: string, kind: Kind, off: nat): seq<Marker>
    decreases |u|
  {
    if u == [] then []
    else if MarkerAt(u, kind).Some? then
      var name := MarkerAt(u, kind).value;
      var w := MarkerLength(kind, name);
      [Marker(name, off)] + Scan(u[w..], kind, off + w)
    else Scan(u[1..], kind, off + 1)
  }

  /** Reference listing: the marker, if any, that starts at every offset of `u`. */
  function EveryPosition(u: string, kind: Kind, off: nat): seq<Marker>
    decreases |u|
  {
    if u == [] then []
    else if MarkerAt(u, kind).Some? then [Marker(MarkerAt(u, kind).value, off)] + EveryPosition(u[1..], kind, off + 1)
    else EveryPosition(u[1..], kind, off + 1)
  }

  /** Every listed marker is really there. */
  lemma {:induction false} EveryPositionSound(u: string, kind: Kind, off: nat)
    ensures forall m :: m in EveryPosition(u, kind, off) ==>
      off <= m.pos < off + |u| && StartsWithMarker(u[m.pos - off..], kind, m.name)
    decreases |u|
  {
    if u != [] {
      var rest := EveryPosition(u[1..], kind, off + 1);
      EveryPositionSound(u[1..], kind, off + 1);
      assert u[0..] == u;
      forall m | m in rest
        ensures off <= m.pos < off + |u| && StartsWithMarker(u[m.pos - off..], kind, m.name)
      {
        assert u[1..][m.pos - (off + 1)..] == u[m.pos - off..];
      }
    }
  }

  /** Every marker of `u` is listed. */
  lemma {:induction false} EveryPositionComplete(u: string, kind: Kind, off: nat)
    ensures forall p, name :: 0 <= p < |u| && StartsWithMarker(u[p..], kind, name) ==>
      Marker(name, off + p) in EveryPosition(u, kind, off)
    decreases |u|
  {
    if u != [] {
      var ms := EveryPosition(u, kind, off);
      var rest := EveryPosition(u[1..], kind, off + 1);
      assert forall m :: m in rest ==> m in ms;
      EveryPositionComplete(u[1..], kind, off + 1);
      forall p, name | 0 <= p < |u| && StartsWithMarker(u[p..], kind, name)
        ensures Marker(name, off + p) in ms
      {
        if p == 0 {
          assert u[0..] == u;
          MarkerAtFindsMarker(u, kind, name);
        } else {
          assert u[1..][p - 1..] == u[p..];
          assert Marker(name, off + 1 + (p - 1)) in rest;
        }
      }
    }
  }

  /** Positions strictly increase along `ms`. */
  predicate Increasing(ms: seq<Marker>) {
    forall i, j :: 0 <= i < j < |ms| ==> ms[i].pos < ms[j].pos
  }

  lemma {:induction false} PrependIncreasing(m: Marker, ms: seq<Marker>)
    requires Increasing(ms)
    requires forall x :: x in ms ==> m.pos < x.pos
    ensures Increasing([m] + ms)
  {
    var ms' := [m] + ms;
    forall i, j | 0 <= i < j < |ms'| ensures ms'[i].pos < ms'[j].pos {
      assert ms'[j] == ms[j - 1];
      if i > 0 {
        assert ms'[i] == ms[i - 1];
      } else {
        assert ms[j - 1] in ms;
      }
    }
  }

  /** The listing is in strictly increasing position order. */
  lemma {:induction false} EveryPositionSorted(u: string, kind: Kind, off: nat)
    ensures Increasing(EveryPosition(u, kind, off))
    decreases |u|
  {
    if u != [] {
      EveryPositionSorted(u[1..], kind, off + 1);
      if MarkerAt(u, kind).Some? {
        EveryPositionSound(u[1..], kind, off + 1);
        PrependIncreasing(Marker(MarkerAt(u, kind).value, off), EveryPosition(u[1..], kind, off + 1));
      }
    }
  }

  /** Only the first character of a marker is `<`. */
  lemma {:induction false} MarkerInteriorHasNoLt(u: string, kind: Kind, name: string)
    requires StartsWithMarker(u, kind, name)
    ensures forall j :: 1 <= j < MarkerLength(kind, name) ==> u[j] != '<'
  {
    var l := |Lead(kind)|;
    forall j | 1 <= j < MarkerLength(kind, name) ensures u[j] != '<' {
      if j < l {
        assert u[j] == u[..l][j] == Lead(kind)[j];
      } else if j < l + |name| {
        assert u[j] == u[l..l + |name|][j - l] == name[j - l];
        assert IsBlockNameChar(name[j - l]);
      }
    }
  }

  /** One step of the reference listing where no marker starts. */
  lemma {:induction false} EveryPositionPastText(u: string, kind: Kind, off: nat)
    requires u != [] && u[0] != '<'
    ensures EveryPosition(u, kind, off) == EveryPosition(u[1..], kind, off + 1)
  {
    NoMarkerWithoutLt(u, kind);
  }

  /** Text without `<` holds no marker, so the listing passes over it. */
  lemma {:induction false} EveryPositionSkipsPlainText(u: string, k: nat, tail: string, kind: Kind, off: nat, off2: nat)
    requires k <= |u| && tail == u[k..] && off2 == off + k
    requires forall i :: 0 <= i < k ==> u[i] != '<'
    ensures EveryPosition(u, kind, off) == EveryPosition(tail, kind, off2)
    decreases k
  {
    if k == 0 {
      assert tail == u;
    } else {
      EveryPositionPastText(u, kind, off);
      var v := u[1..];
      EveryPositionSkipsPlainText(v, k - 1, tail, kind, off + 1, off2);
    }
  }

  /** One step of the scan at a match: record it and jump past it. */
  lemma {:induction false} ScanAtMarker(u: string, kind: Kind, name: string, w: nat, tail: string, off: nat, off2: nat)
    requires MarkerAt(u, kind) == Some(name) && w == MarkerLength(kind, name)
    requires w <= |u| && tail == u[w..] && off2 == off + w
    ensures Scan(u, kind, off) == [Marker(name, off)] + Scan(tail, kind, off2)
  {
  }

  /** One step of the scan where no marker starts. */
  lemma {:induction false} ScanNoMarker(u: string, kind: Kind, tail: string, off: nat, off2: nat)
    requires u != [] && MarkerAt(u, kind) == None
    requires tail == u[1..] && off2 == off + 1
    ensures Scan(u, kind, off) == Scan(tail, kind, off2)
  {
  }

  /** One step of the reference listing at a match. */
  lemma {:induction false} EveryPositionAtMarker(u: string, kind: Kind, name: string, tail: string, off: nat, off2: nat)
    requires MarkerAt(u, kind) == Some(name)
    requires u != [] && tail == u[1..] && off2 == off + 1
    ensures EveryPosition(u, kind, off) == [Marker(name, off)] + EveryPosition(tail, kind, off2)
  {
  }

  /** One step of the reference listing where no marker starts. */
  lemma {:induction false} EveryPositionNoMarker(u: string, kind: Kind, tail: string, off: nat, off2: nat)
    requires u != [] && MarkerAt(u, kind) == None
    requires tail == u[1..] && off2 == off + 1
    ensures EveryPosition(u, kind, off) == EveryPosition(tail, kind, off2)
  {
  }

  /** After a match the reference listing resumes just past it: the rest of
      the marker holds no `<`, so nothing else starts inside it. */
  lemma {:induction false} EveryPositionPastMarker(u: string, kind: Kind, name: string, w: nat, off: nat, off2: nat)
    requires StartsWithMarker(u, kind, name)
    requires w == MarkerLength(kind, name) && off2 == off + w
    ensures w <= |u|
    ensures EveryPosition(u[1..], kind, off + 1) == EveryPosition(u[w..], kind, off2)
  {
    var v := u[1..];
    MarkerInteriorHasNoLt(u, kind, name);
    assert forall i :: 0 <= i < w - 1 ==> v[i] != '<' by {
      forall i | 0 <= i < w - 1 ensures v[i] != '<' {
        assert v[i] == u[i + 1];
      }
    }
    EveryPositionSkipsPlainText(v, w - 1, u[w..], kind, off + 1, off2);
  }

  /** The resume-after-match scan finds a marker at every offset where one starts:
      markers never overlap, so skipping a match loses nothing. */
  lemma {:induction false} ScanFindsEveryMarker(u: string, kind: Kind, off: nat)
    ensures Scan(u, kind, off) == EveryPosition(u, kind, off)
    decreases |u|
  {
    if u != [] {
      match MarkerAt(u, kind)
      case Some(name) =>
        var w := MarkerLength(kind, name);
        var rest := u[w..];
        ScanFindsEveryMarker(rest, kind, off + w);
        FindsMarkerStep(u, kind, name, w, rest, off, off + w);
      case None =>
        ScanFindsEveryMarker(u[1..], kind, off + 1);
        FindsTextStep(u, kind, u[1..], off, off + 1);
    }
  }

  /** The inductive step of `ScanFindsEveryMarker` at a match. */
  lemma {:induction false} FindsMarkerStep(u: string, kind: Kind, name: string, w: nat, rest: string, off: nat, off2: nat)
    requires MarkerAt(u, kind) == Some(name) && w == MarkerLength(kind, name)
    requires w <= |u| && rest == u[w..] && off2 == off + w
    requires Scan(rest, kind, off2) == EveryPosition(rest, kind, off2)
    ensures Scan(u, kind, off) == EveryPosition(u, kind, off)
  {
    ScanAtMarker(u, kind, name, w, rest, off, off2);
    EveryPositionAtMarker(u, kind, name, u[1..], off, off + 1);
    EveryPositionPastMarker(u, kind, name, w, off, off2);
  }

  /** The inductive step of `ScanFindsEveryMarker` where no marker starts. */
  lemma {:induction false} FindsTextStep(u: string, kind: Kind, rest: string, off: nat, off2: nat)
    requires u != [] && MarkerAt(u, kind) == None
    requires rest == u[1..] && off2 == off + 1
    requires Scan(rest, kind, off2) == EveryPosition(rest, kind, off2)
    ensures Scan(u, kind, off) == EveryPosition(u, kind, off)
  {
    ScanNoMarker(u, kind, rest, off, off2);
    EveryPositionNoMarker(u, kind, rest, off, off2);
  }

  /** One step of the scan where no marker starts. */
  lemma {:induction false} ScanPastText(u: string, kind: Kind, off: nat)
    requires u != [] && u[0] != '<'
    ensures Scan(u, kind, off) == Scan(u[1..], kind, off + 1)
  {
    NoMarkerWithoutLt(u, kind);
  }

  /** The scan passes over a prefix without `<`. */
  lemma {:induction false} ScanSkipsPrefix(u: string, k: nat, tail: string, kind: Kind, off: nat, off2: nat)
    requires k <= |u| && tail == u[k..] && off2 == off + k
    requires forall i :: 0 <= i < k ==> u[i] != '<'
    ensures Scan(u, kind, off) == Scan(tail, kind, off2)
    decreases k
  {
    if k == 0 {
      assert tail == u;
    } else {
      ScanPastText(u, kind, off);
      var v := u[1..];
      ScanSkipsPrefix(v, k - 1, tail, kind, off + 1, off2);
    }
  }

  /** Where no marker starts and the next `<` is at `k` or later, the scan
      moves on to offset `k`. */
  lemma {:induction false} ScanSkipsNoMatch(u: string, k: nat, tail: string, kind: Kind, off: nat, off2: nat)
    requires u != [] && MarkerAt(u, kind) == None
    requires 1 <= k <= |u| && tail == u[k..] && off2 == off + k
    requires forall i :: 1 <= i < k ==> u[i] != '<'
    ensures Scan(u, kind, off) == Scan(tail, kind, off2)
  {
    var v := u[1..];
    ScanNoMarker(u, kind, v, off, off + 1);
    assert forall i :: 0 <= i < k - 1 ==> v[i] != '<' by {
      forall i | 0 <= i < k - 1 ensures v[i] != '<' {
        assert v[i] == u[i + 1];
      }
    }
    ScanSkipsPrefix(v, k - 1, tail, kind, off + 1, off2);
  }

  /** Text without `<` holds no marker, so the scan passes over it. */
  lemma {:induction false} ScanSkipsPlainText(x: string, y: string, kind: Kind, off: nat)
    requires '<' !in x
    ensures Scan(x + y, kind, off) == Scan(y, kind, off + |x|)
  {
    var u := x + y;
    assert forall i :: 0 <= i < |x| ==> u[i] == x[i];
    ScanSkipsPrefix(u, |x|, y, kind, off, off + |x|);
  }

  /** The markers of a file, in position order. */
  function FileMarkers(s: string, kind: Kind): seq<Marker> {
    Scan(s, kind, 0)
  }

  /** The markers of a file are exactly those that start at some offset, in
      increasing order of offset. */
  lemma {:induction false} MarkersExact(s: string, kind: Kind)
    ensures forall m :: m in FileMarkers(s, kind) ==> m.pos < |s| && StartsWithMarker(s[m.pos..], kind, m.name)
    ensures forall p, name :: 0 <= p < |s| && StartsWithMarker(s[p..], kind, name) ==> Marker(name, p) in FileMarkers(s, kind)
    ensures Increasing(FileMarkers(s, kind))
  {
    ScanFindsEveryMarker(s, kind, 0);
    EveryPositionSound(s, kind, 0);
    EveryPositionComplete(s, kind, 0);
    EveryPositionSorted(s, kind, 0);
  }

  /** No offset of a file holds both an open and a close marker. */
  lemma {:induction false} OpenAndCloseDisjoint(s: string)
    ensures forall m, m' :: m in FileMarkers(s, Open) && m' in FileMarkers(s, Close) ==> m.pos != m'.pos
  {
    MarkersExact(s, Open);
    MarkersExact(s, Close);
    forall m, m' | m in FileMarkers(s, Open) && m' in FileMarkers(s, Close) ensures m.pos != m'.pos {
      CloseIsNeverOpen(s[m.pos..], m.name, m'.name);
    }
  }
}
