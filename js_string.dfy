/** The parts of JavaScript's String.prototype that the resolvers use:
    trim (restricted to ASCII white space), indexOf and split. */
module JsString {
  import opened Wrappers

  /** ASCII white space: space, tab, line feed, vertical tab, form feed, carriage return. */
  predicate IsSpace(c: char) {
    c == ' ' || ('\t' <= c <= '\r')
  }

  /** The strings that `trim()` turns into "": nothing but white space. */
  predicate Blank(s: string) {
    forall i :: 0 <= i < |s| ==> IsSpace(s[i])
  }

  /** Drops leading white space. */
  function TrimStart(s: string): (r: string)
    ensures |r| <= |s| && r == s[|s| - |r|..]
    ensures forall i :: 0 <= i < |s| - |r| ==> IsSpace(s[i])
    ensures r == [] || !IsSpace(r[0])
  {
    if s != [] && IsSpace(s[0]) then TrimStart(s[1..]) else s
  }

  /** Drops trailing white space. */
  function TrimEnd(s: string): (r: string)
    ensures |r| <= |s| && r == s[..|r|]
    ensures forall i :: |r| <= i < |s| ==> IsSpace(s[i])
    ensures r == [] || !IsSpace(r[|r| - 1])
  {
    if s != [] && IsSpace(s[|s| - 1]) then TrimEnd(s[..|s| - 1]) else s
  }

  /** String.prototype.trim over ASCII white space. */
  function Trim(s: string): string {
    TrimEnd(TrimStart(s))
  }

  lemma TrimIsEmptyIffBlank(s: string)
    ensures Trim(s) == "" <==> Blank(s)
  {
  }

  /** `pat` occurs in `s` starting at position i. */
  predicate OccursAt(s: string, pat: string, i: nat) {
    i + |pat| <= |s| && s[i..i + |pat|] == pat
  }

  /** String.prototype.indexOf(pat, k): the first occurrence of pat at or after k. */
  function IndexOf(s: string, pat: string, k: nat): (r: Option<nat>)
    decreases |s| - k
    ensures r.Some? ==> k <= r.value && OccursAt(s, pat, r.value)
    ensures r.Some? ==> forall j :: k <= j < r.value ==> !OccursAt(s, pat, j)
    ensures r.None? ==> forall j :: k <= j ==> !OccursAt(s, pat, j)
  {
    if k + |pat| > |s| then None
    else if s[k..k + |pat|] == pat then Some(k)
    else IndexOf(s, pat, k + 1)
  }

  /** Searching a suffix of s is searching s from further on. */
  lemma {:induction false} IndexOfInSuffix(s: string, pat: string, d: nat, k: nat)
    requires pat != "" && d <= |s|
    decreases |s| - d - k
    ensures IndexOf(s[d..], pat, k) ==
            (if IndexOf(s, pat, d + k).Some? then Some(IndexOf(s, pat, d + k).value - d) else None)
  {
    if k + |pat| <= |s| - d {
      assert s[d..][k..k + |pat|] == s[d + k..d + k + |pat|];
      if s[d + k..d + k + |pat|] != pat {
        IndexOfInSuffix(s, pat, d, k + 1);
      }
    }
  }

  /** The inverse of Split: the parts glued back together with the separator between them. */
  function Join(parts: seq<string>, sep: string): string {
    if |parts| == 0 then ""
    else if |parts| == 1 then parts[0]
    else parts[0] + sep + Join(parts[1..], sep)
  }

  /** One step of Split: the whole string when the separator is absent, otherwise the text
      before its first occurrence followed by the split of what comes after it. */
  lemma SplitUnfolds(s: string, sep: string)
    requires sep != ""
    ensures IndexOf(s, sep, 0).None? ==> Split(s, sep) == [s]
    ensures IndexOf(s, sep, 0).Some? ==>
              var i := IndexOf(s, sep, 0).value;
              Split(s, sep) == [s[..i]] + Split(s[i + |sep|..], sep)
  {
  }

  /** The first piece of a split runs up to the first separator, or is the whole string. */
  lemma SplitFirstPiece(s: string, sep: string)
    requires sep != ""
    ensures Split(s, sep)[0] == match IndexOf(s, sep, 0) case None => s case Some(j) => s[..j]
  {
    SplitUnfolds(s, sep);
  }

  /** String.prototype.split(sep) for a non-empty separator: the pieces between occurrences. */
  function Split(s: string, sep: string): (parts: seq<string>)
    requires sep != ""
    decreases |s|
    ensures |parts| >= 1
    ensures Join(parts, sep) == s
  {
    match IndexOf(s, sep, 0)
    case None => [s]
    case Some(i) =>
      var rest := Split(s[i + |sep|..], sep);
      assert s == s[..i] + sep + s[i + |sep|..];
      [s[..i]] + rest
  }
}
