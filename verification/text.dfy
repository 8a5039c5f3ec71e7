/** Character classes and whitespace trimming shared by the block loader and the renderer. */
module Text {

  /** Whitespace as Python's `str.isspace` sees it; the `\s` class of `re` on
      `str` patterns uses the same table. */
  predicate IsSpace(c: char) {
    var x := c as int;
    || 0x09 <= x <= 0x0D
    || 0x1C <= x <= 0x20
    || x == 0x85 || x == 0xA0 || x == 0x1680
    || 0x2000 <= x <= 0x200A
    || x == 0x2028 || x == 0x2029 || x == 0x202F || x == 0x205F || x == 0x3000
  }

  predicate IsAsciiAlnum(c: char) {
    'a' <= c <= 'z' || 'A' <= c <= 'Z' || '0' <= c <= '9'
  }

  /** The class `[\w\-]` of block names. Python's `\w` also admits Unicode
      letters and digits; this model admits only the ASCII word characters. */
  predicate IsBlockNameChar(c: char) {
    IsAsciiAlnum(c) || c == '_' || c == '-'
  }

  /** The class `[a-zA-Z0-9_-]` of placeholder names. */
  predicate IsPlaceholderNameChar(c: char) {
    IsAsciiAlnum(c) || c == '_' || c == '-'
  }

  /** Every placeholder-name character is a block-name character, and none of
      the delimiters the scanners stop at is a name character of either kind. */
  lemma {:induction false} NameClasses(c: char)
    ensures IsPlaceholderNameChar(c) ==> IsBlockNameChar(c)
    ensures c in "/<>!${}" ==> !IsBlockNameChar(c) && !IsPlaceholderNameChar(c)
    ensures IsSpace(c) ==> !IsBlockNameChar(c) && !IsPlaceholderNameChar(c)
  {
  }

  /** The two name classes of the program. */
  datatype NameClass = BlockNames | PlaceholderNames

  predicate InClass(c: char, cls: NameClass) {
    if cls == BlockNames then IsBlockNameChar(c) else IsPlaceholderNameChar(c)
  }

  /** Length of the longest prefix of `u` whose characters all belong to `cls`:
      the greedy `+` of a character class. */
  function NameLength(u: string, cls: NameClass): (k: nat)
    ensures k <= |u|
    ensures forall i :: 0 <= i < k ==> InClass(u[i], cls)
    ensures k < |u| ==> !InClass(u[k], cls)
  {
    if u == [] || !InClass(u[0], cls) then 0 else 1 + NameLength(u[1..], cls)
  }

  /** `s` starts and ends with a non-whitespace character (or is empty). */
  predicate IsStripped(s: string) {
    s == [] || (!IsSpace(s[0]) && !IsSpace(s[|s| - 1]))
  }

  /** `r` is the infix of `s` starting at `a` and everything around it is whitespace. */
  predicate StripsTo(s: string, a: nat, r: string) {
    && a + |r| <= |s|
    && r == s[a..a + |r|]
    && (forall i :: 0 <= i < a ==> IsSpace(s[i]))
    && (forall i :: a + |r| <= i < |s| ==> IsSpace(s[i]))
  }

  function TrimStart(s: string): (r: string)
    ensures |r| <= |s| && r == s[|s| - |r|..]
    ensures forall i :: 0 <= i < |s| - |r| ==> IsSpace(s[i])
    ensures r == [] || !IsSpace(r[0])
  {
    if s != [] && IsSpace(s[0]) then TrimStart(s[1..]) else s
  }

  function TrimEnd(s: string): (r: string)
    ensures |r| <= |s| && r == s[..|r|]
    ensures forall i :: |r| <= i < |s| ==> IsSpace(s[i])
    ensures r == [] || !IsSpace(r[|r| - 1])
  {
    if s != [] && IsSpace(s[|s| - 1]) then TrimEnd(s[..|s| - 1]) else s
  }

  /** Trimming the front of `s` to `t` and then the back of `t` to `r` strips
      `s` to `r`; stated on the trimming facts alone so that neither trim unfolds. */
  lemma {:induction false} TrimsCompose(s: string, t: string, r: string)
    requires |t| <= |s| && t == s[|s| - |t|..]
    requires forall i :: 0 <= i < |s| - |t| ==> IsSpace(s[i])
    requires t == [] || !IsSpace(t[0])
    requires |r| <= |t| && r == t[..|r|]
    requires forall i :: |r| <= i < |t| ==> IsSpace(t[i])
    requires r == [] || !IsSpace(r[|r| - 1])
    ensures IsStripped(r)
    ensures StripsTo(s, |s| - |t|, r)
  {
    var a := |s| - |t|;
    assert r == s[a..a + |r|];
    forall i | a + |r| <= i < |s|
      ensures IsSpace(s[i])
    {
      assert s[i] == t[i - a];
    }
  }

  /** Python's `str.strip()` with no argument. */
  function Strip(s: string): (r: string)
    ensures IsStripped(r)
  {
    TrimEnd(TrimStart(s))
  }

  /** `Strip` keeps an infix of its argument and drops only whitespace around it. */
  lemma {:induction false} StripKeepsInfix(s: string)
    ensures StripsTo(s, |s| - |TrimStart(s)|, Strip(s))
  {
    TrimsCompose(s, TrimStart(s), Strip(s));
  }

  /** Stripping is determined by what it keeps: any stripped infix surrounded
      only by whitespace is the result of `Strip`. */
  lemma {:induction false} StripCharacterized(s: string, a: nat, r: string)
    requires StripsTo(s, a, r) && IsStripped(r)
    ensures Strip(s) == r
  {
    var t := TrimStart(s);
    var a' := |s| - |t|;
    StripKeepsInfix(s);
    if r == [] {
      assert forall i :: 0 <= i < |s| ==> IsSpace(s[i]);
    } else {
      // TrimStart stops exactly at the first non-space character, which is at a.
      assert !IsSpace(s[a]);
      assert a' <= a;
      assert t != [] && t[0] == s[a'];
      assert a' == a;
      var e := Strip(s);
      var last := a + |r| - 1;
      assert !IsSpace(s[last]) by { assert s[last] == r[|r| - 1]; }
      assert |r| <= |t| && t[|r| - 1] == s[last];
      assert |e| >= |r|;
      assert e != [] && e[|e| - 1] == s[a + |e| - 1];
      assert |e| == |r|;
    }
  }

  /** Stripping a stripped string changes nothing. */
  lemma {:induction false} StripIdempotent(s: string)
    requires IsStripped(s)
    ensures Strip(s) == s
  {
    assert StripsTo(s, 0, s);
    StripCharacterized(s, 0, s);
  }
}
