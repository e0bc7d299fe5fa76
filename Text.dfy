/**
 * The Python 2 `str` (byte string) built-ins that the host parser relies on:
 * `str.split()` with no separator, `str.strip()`, `in`, the first and last
 * occurrence of a character, and `s.split(c)` unpacked into two names.
 */
module Text {
  import opened Wrappers

  /**
   * `c.isspace()` on a Python 2 byte string: the characters `str.split()` and
   * `str.strip()` treat as whitespace are space, tab, line feed, vertical tab,
   * form feed and carriage return.
   */
  predicate IsSpace(c: char) {
    c == ' ' || '\t' <= c <= '\r'
  }

  predicate NoSpace(s: string) {
    forall i :: 0 <= i < |s| ==> !IsSpace(s[i])
  }

  predicate AllSpace(s: string) {
    forall i :: 0 <= i < |s| ==> IsSpace(s[i])
  }

  /** Length of the longest prefix of `s` that holds no whitespace. */
  function WordLen(s: string): (n: nat)
    ensures n <= |s| && NoSpace(s[..n])
    ensures n < |s| ==> IsSpace(s[n])
  {
    if s == [] || IsSpace(s[0]) then 0 else 1 + WordLen(s[1..])
  }

  /** `s.split()`: the maximal runs of non-whitespace characters, left to right. */
  function Split(s: string): (fields: seq<string>)
    ensures forall i :: 0 <= i < |fields| ==> fields[i] != [] && NoSpace(fields[i])
    decreases |s|
  {
    if s == [] then []
    else if IsSpace(s[0]) then Split(s[1..])
    else
      var n := WordLen(s);
      [s[..n]] + Split(s[n..])
  }

  /** The characters of `s` that are not whitespace, in order. */
  function NonSpace(s: string): string {
    if s == [] then [] else (if IsSpace(s[0]) then [] else [s[0]]) + NonSpace(s[1..])
  }

  function Concat(ss: seq<string>): string {
    if ss == [] then [] else ss[0] + Concat(ss[1..])
  }

  /** `" ".join(words)`. */
  function Join(words: seq<string>): string {
    if |words| == 0 then []
    else if |words| == 1 then words[0]
    else words[0] + " " + Join(words[1..])
  }

  lemma {:induction false} NonSpaceAppend(a: string, b: string)
    ensures NonSpace(a + b) == NonSpace(a) + NonSpace(b)
  {
    if a != [] {
      assert (a + b)[0] == a[0];
      assert (a + b)[1..] == a[1..] + b;
      NonSpaceAppend(a[1..], b);
    } else {
      assert a + b == b;
    }
  }

  lemma {:induction false} NonSpaceOfWord(w: string)
    requires NoSpace(w)
    ensures NonSpace(w) == w
  {
    if w != [] {
      NonSpaceOfWord(w[1..]);
    }
  }

  /** Splitting loses exactly the whitespace: the fields, glued together, are the non-blank text. */
  lemma {:induction false} SplitKeepsText(s: string)
    ensures Concat(Split(s)) == NonSpace(s)
    decreases |s|
  {
    if s == [] {
    } else if IsSpace(s[0]) {
      SplitKeepsText(s[1..]);
    } else {
      var n := WordLen(s);
      SplitKeepsText(s[n..]);
      assert s == s[..n] + s[n..];
      NonSpaceAppend(s[..n], s[n..]);
      NonSpaceOfWord(s[..n]);
    }
  }

  /** A blank string has no fields, and a string with no fields is blank. */
  lemma SplitEmptyIffBlank(s: string)
    ensures Split(s) == [] <==> AllSpace(s)
  {
    SplitKeepsText(s);
    NonSpaceEmptyIffBlank(s);
  }

  lemma {:induction false} NonSpaceEmptyIffBlank(s: string)
    ensures NonSpace(s) == [] <==> AllSpace(s)
  {
    if s != [] {
      NonSpaceEmptyIffBlank(s[1..]);
      assert AllSpace(s) <==> IsSpace(s[0]) && AllSpace(s[1..]);
    }
  }

  lemma {:induction false} WordLenOfWord(w: string, rest: string)
    requires NoSpace(w)
    requires rest == [] || IsSpace(rest[0])
    ensures WordLen(w + rest) == |w|
  {
    if w != [] {
      assert (w + rest)[1..] == w[1..] + rest;
      WordLenOfWord(w[1..], rest);
    }
  }

  /** Splitting a single-space join of words gives the words back. */
  lemma {:induction false} SplitJoin(words: seq<string>)
    requires forall i :: 0 <= i < |words| ==> words[i] != [] && NoSpace(words[i])
    ensures Split(Join(words)) == words
  {
    if |words| == 1 {
      var w := words[0];
      WordLenOfWord(w, []);
      assert w + [] == w;
      assert w[|w|..] == [];
    } else if |words| > 1 {
      var w, rest := words[0], Join(words[1..]);
      var s := w + " " + rest;
      WordLenOfWord(w, " " + rest);
      assert s == w + (" " + rest);
      assert s[|w|..] == " " + rest;
      assert (" " + rest)[1..] == rest;
      SplitJoin(words[1..]);
      assert s[..|w|] == w;
    }
  }

  /** A whitespace character ends the word before it. */
  lemma {:induction false} WordLenBeforeSpace(a: string, c: char, b: string)
    requires IsSpace(c)
    ensures WordLen(a + [c] + b) == WordLen(a)
  {
    if a != [] && !IsSpace(a[0]) {
      assert (a + [c] + b)[1..] == a[1..] + [c] + b;
      WordLenBeforeSpace(a[1..], c, b);
    }
  }

  /** A whitespace character separates: the fields on either side of it are split independently. */
  lemma {:induction false} SplitAtSpace(a: string, c: char, b: string)
    requires IsSpace(c)
    ensures Split(a + [c] + b) == Split(a) + Split(b)
    decreases |a|
  {
    var t := a + [c] + b;
    if a == [] {
      assert t == [c] + b && t[1..] == b;
    } else if IsSpace(a[0]) {
      assert t[1..] == a[1..] + [c] + b;
      SplitAtSpace(a[1..], c, b);
    } else {
      var n := WordLen(a);
      WordLenBeforeSpace(a, c, b);
      assert t[..n] == a[..n];
      assert t[n..] == a[n..] + [c] + b;
      SplitAtSpace(a[n..], c, b);
    }
  }

  /** A non-empty string without whitespace is one field. */
  lemma SplitWord(w: string)
    requires w != [] && NoSpace(w)
    ensures Split(w) == [w]
  {
    SplitJoin([w]);
  }

  /** `s.lstrip()`: `s` with its leading whitespace dropped (see `TrimStartDropsSpace`). */
  function TrimStart(s: string): (r: string)
    ensures r == [] <==> AllSpace(s)
    ensures r == [] || !IsSpace(r[0])
    ensures |r| <= |s| && r == s[|s| - |r|..]
  {
    if s != [] && IsSpace(s[0]) then TrimStart(s[1..]) else s
  }

  /** `s.rstrip()`: `s` with its trailing whitespace dropped (see `TrimEndDropsSpace`). */
  function TrimEnd(s: string): (r: string)
    ensures r == [] <==> AllSpace(s)
    ensures r == [] || !IsSpace(r[|r| - 1])
    ensures |r| <= |s| && r == s[..|r|]
  {
    if s != [] && IsSpace(s[|s| - 1]) then
      var r := TrimEnd(s[..|s| - 1]);
      assert AllSpace(s) <==> AllSpace(s[..|s| - 1]) by {
        assert forall i :: 0 <= i < |s| - 1 ==> s[..|s| - 1][i] == s[i];
      }
      r
    else s
  }

  /** `s.strip()`: `s` without its leading and trailing whitespace (see `StripDropsSpace`). */
  function Strip(s: string): (r: string)
    ensures r == [] <==> AllSpace(s)
    ensures r != [] ==> !IsSpace(r[0]) && !IsSpace(r[|r| - 1])
  {
    var t := TrimStart(s);
    var r := TrimEnd(t);
    assert r != [] ==> r[0] == t[0];
    r
  }

  /** What `lstrip` drops is whitespace. */
  lemma {:induction false} TrimStartDropsSpace(s: string)
    ensures AllSpace(s[..|s| - |TrimStart(s)|])
  {
    if s != [] && IsSpace(s[0]) {
      var u := s[1..];
      TrimStartDropsSpace(u);
      var k := |u| - |TrimStart(u)|;
      assert forall i :: 1 <= i < k + 1 ==> s[i] == u[..k][i - 1];
    }
  }

  /** What `rstrip` drops is whitespace. */
  lemma {:induction false} TrimEndDropsSpace(s: string)
    ensures AllSpace(s[|TrimEnd(s)|..])
  {
    if s != [] && IsSpace(s[|s| - 1]) {
      var init := s[..|s| - 1];
      TrimEndDropsSpace(init);
      var k := |TrimEnd(init)|;
      assert forall i :: k <= i < |s| - 1 ==> s[i] == init[k..][i - k];
    }
  }

  /** `strip` keeps the middle of `s` and drops only whitespace on either side of it. */
  lemma StripDropsSpace(s: string)
    ensures exists lead, trail :: s == lead + Strip(s) + trail && AllSpace(lead) && AllSpace(trail)
  {
    var t := TrimStart(s);
    var r := TrimEnd(t);
    TrimStartDropsSpace(s);
    TrimEndDropsSpace(t);
    var lead, trail := s[..|s| - |t|], t[|r|..];
    PrefixMiddleSuffix(s, t, r);
    assert s == lead + Strip(s) + trail && AllSpace(lead) && AllSpace(trail);
  }

  /** `s` is what precedes its suffix `t`, then the prefix `r` of `t`, then the rest of `t`. */
  lemma PrefixMiddleSuffix(s: string, t: string, r: string)
    requires |t| <= |s| && t == s[|s| - |t|..]
    requires |r| <= |t| && r == t[..|r|]
    ensures s == s[..|s| - |t|] + r + t[|r|..]
  {
    assert t == r + t[|r|..];
    assert s == s[..|s| - |t|] + t;
  }

  /** A line that is not blank after stripping has at least one field. */
  lemma StrippedHasField(s: string)
    requires Strip(s) != []
    ensures Split(Strip(s)) != []
  {
    var r := Strip(s);
    assert !IsSpace(r[0]);
  }

  /** Index of the first occurrence of `c` (`s.index(c)`). */
  function FirstIndex(s: string, c: char): (i: nat)
    requires c in s
    ensures i < |s| && s[i] == c && c !in s[..i]
  {
    if s[0] == c then 0 else 1 + FirstIndex(s[1..], c)
  }

  /** Index of the last occurrence of `c` (`s.rindex(c)`). */
  function LastIndex(s: string, c: char): (i: nat)
    requires c in s
    ensures i < |s| && s[i] == c && c !in s[i + 1..]
  {
    if s[|s| - 1] == c then |s| - 1 else LastIndex(s[..|s| - 1], c)
  }

  /** The three parts of `a + b + c`, taken back by slicing. */
  lemma SliceParts(a: string, b: string, c: string)
    ensures (a + b + c)[..|a|] == a
    ensures (a + b + c)[|a|..|a| + |b|] == b
    ensures (a + b + c)[|a| + |b|..] == c
  {
    var s := a + b + c;
    assert forall i :: 0 <= i < |b| ==> s[|a|..|a| + |b|][i] == b[i];
  }

  /** A string cut around one of its characters, at `p`, put back together. */
  lemma CutAt(s: string, p: nat)
    requires p < |s|
    ensures s[..p] + [s[p]] + s[p + 1..] == s
  {
    assert forall i :: 0 <= i < p ==> (s[..p] + [s[p]] + s[p + 1..])[i] == s[i];
  }

  /** A string cut around two of its characters, at `p` and `q`, put back together. */
  lemma CutAround(s: string, p: nat, q: nat)
    requires p < q < |s|
    ensures s[..p] + [s[p]] + s[p + 1..q] + [s[q]] + s[q + 1..] == s
  {
    var head := s[..q];
    CutAt(s, q);
    CutAt(head, p);
    assert head[..p] == s[..p] && head[p] == s[p] && head[p + 1..] == s[p + 1..q];
  }

  /** The first `c` of `a + [c] + b` is the one after `a` when `a` holds none. */
  lemma {:induction false} FirstIndexAfter(a: string, c: char, b: string)
    requires c !in a
    ensures c in a + [c] + b && FirstIndex(a + [c] + b, c) == |a|
  {
    var s := a + [c] + b;
    assert s[|a|] == c;
    if a != [] {
      assert s[1..] == a[1..] + [c] + b;
      FirstIndexAfter(a[1..], c, b);
    }
  }

  /** The last `c` of `a + [c] + b` is the one before `b` when `b` holds none. */
  lemma {:induction false} LastIndexBefore(a: string, c: char, b: string)
    requires c !in b
    ensures c in a + [c] + b && LastIndex(a + [c] + b, c) == |a|
  {
    var s := a + [c] + b;
    assert s[|a|] == c;
    if b != [] {
      assert s[..|s| - 1] == a + [c] + b[..|b| - 1];
      LastIndexBefore(a, c, b[..|b| - 1]);
    }
  }

  /**
   * `left, right = s.split(c)`: succeeds only when `s` holds exactly one `c`;
   * otherwise Python raises ValueError on the unpacking.
   */
  function SplitPair(s: string, c: char): (r: Option<(string, string)>)
    ensures r.Some? ==> r.value.0 + [c] + r.value.1 == s && c !in r.value.0 && c !in r.value.1
    ensures r.None? ==> forall i :: 0 <= i < |s| && s[i] == c ==> c in s[..i] || c in s[i + 1..]
  {
    if c !in s then None
    else
      var i := FirstIndex(s, c);
      if c in s[i + 1..] then None
      else
        assert s == s[..i] + [c] + s[i + 1..];
        Some((s[..i], s[i + 1..]))
  }
}
