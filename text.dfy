/**
 * The Python `str` operations the core relies on, over `seq<char>`:
 * `strip()`, `split()`, `split(sep)`, `lower()`, `endswith`, and the substring
 * test `sub in s`. Whitespace and case are the ASCII ones.
 */
module Text {

  /** Python's `str.isspace` on ASCII: space, \t \n \v \f \r and the separators 0x1C-0x1F. */
  predicate IsSpace(c: char) {
    c == ' ' || ('\t' <= c <= '\r') || ('\U{1C}' <= c <= '\U{1F}')
  }

  predicate AllSpace(s: string) {
    forall i :: 0 <= i < |s| ==> IsSpace(s[i])
  }

  /** `s.lstrip()`. */
  function TrimLeft(s: string): string {
    if s != [] && IsSpace(s[0]) then TrimLeft(s[1..]) else s
  }

  /** `s.lstrip()` is the suffix of `s` left after its leading whitespace, and starts with no whitespace. */
  lemma {:induction false} TrimLeftFacts(s: string)
    ensures var r := TrimLeft(s);
      && |r| <= |s| && r == s[|s| - |r|..]
      && (r == [] || !IsSpace(r[0]))
      && AllSpace(s[..|s| - |r|])
  {
    if s != [] && IsSpace(s[0]) {
      TrimLeftFacts(s[1..]);
      var r := TrimLeft(s[1..]);
      assert s[1..][|s| - 1 - |r|..] == s[|s| - |r|..];
      assert s[..|s| - |r|] == [s[0]] + s[1..][..|s| - 1 - |r|];
    }
  }

  /** `s.rstrip()`. */
  function TrimRight(s: string): string {
    if s != [] && IsSpace(s[|s| - 1]) then TrimRight(s[..|s| - 1]) else s
  }

  /** `s.rstrip()` is the prefix of `s` left before its trailing whitespace, and ends with no whitespace. */
  lemma {:induction false} TrimRightFacts(s: string)
    ensures var r := TrimRight(s);
      && |r| <= |s| && r == s[..|r|]
      && (r == [] || !IsSpace(r[|r| - 1]))
      && AllSpace(s[|r|..])
  {
    if s != [] && IsSpace(s[|s| - 1]) {
      TrimRightFacts(s[..|s| - 1]);
      var r := TrimRight(s[..|s| - 1]);
      assert s[..|s| - 1][..|r|] == s[..|r|];
      assert s[|r|..] == s[..|s| - 1][|r|..] + [s[|s| - 1]];
    }
  }

  /** `r` sits at position `k` of `s` with nothing but whitespace before and after it. */
  predicate Padded(s: string, r: string, k: int) {
    OccursAt(s, r, k) && AllSpace(s[..k]) && AllSpace(s[k + |r|..])
  }

  /** A concatenation is blank exactly when both parts are. */
  lemma AllSpaceConcat(a: string, b: string)
    ensures AllSpace(a + b) <==> AllSpace(a) && AllSpace(b)
  {
    if AllSpace(a + b) {
      assert forall i :: 0 <= i < |a| ==> a[i] == (a + b)[i];
      assert forall i :: 0 <= i < |b| ==> b[i] == (a + b)[|a| + i];
    }
  }

  /** `s.strip()`: `s` without its leading and trailing whitespace; empty exactly for blank `s`. */
  function Strip(s: string): (r: string)
    ensures r == [] <==> AllSpace(s)
    ensures r == [] || (!IsSpace(r[0]) && !IsSpace(r[|r| - 1]))
    ensures exists k :: Padded(s, r, k)
    ensures |r| <= |s|
  {
    TrimLeftFacts(s);
    var t := TrimLeft(s);
    TrimRightFacts(t);
    var r := TrimRight(t);
    TrimmedBlock(s, |s| - |t|, t, r);
    r
  }

  /**
   * What `lstrip` and then `rstrip` leave: a block of `s` padded with
   * whitespace, with non-space ends, empty exactly when `s` is blank.
   */
  lemma TrimmedBlock(s: string, k: nat, t: string, r: string)
    requires k <= |s| && t == s[k..] && AllSpace(s[..k]) && (t == [] || !IsSpace(t[0]))
    requires |r| <= |t| && r == t[..|r|] && AllSpace(t[|r|..]) && (r == [] || !IsSpace(r[|r| - 1]))
    ensures Padded(s, r, k)
    ensures r == [] || (!IsSpace(r[0]) && !IsSpace(r[|r| - 1]))
    ensures r == [] <==> AllSpace(s)
  {
    assert r != [] ==> r[0] == t[0];
    assert s[k..k + |r|] == t[..|r|];
    assert s[k + |r|..] == t[|r|..];
    StripBlank(s, k, t, r);
  }

  /** The trimmed block is empty exactly when `s` is blank. */
  lemma StripBlank(s: string, k: nat, t: string, r: string)
    requires k <= |s| && t == s[k..] && AllSpace(s[..k]) && (t == [] || !IsSpace(t[0]))
    requires |r| <= |t| && AllSpace(t[|r|..])
    ensures r == [] <==> AllSpace(s)
  {
    assert s == s[..k] + t;
    AllSpaceConcat(s[..k], t);
    if r == [] {
      assert t[|r|..] == t;
    }
  }

  /** Of a blank-padded block of `s`, the start is fixed when the block begins with a non-space. */
  lemma PaddedStart(s: string, r1: string, k1: int, r2: string, k2: int)
    requires Padded(s, r1, k1) && Padded(s, r2, k2)
    requires r1 != [] && !IsSpace(r1[0]) && r2 != [] && !IsSpace(r2[0])
    ensures k1 == k2
  {
    if k1 < k2 {
      SpaceBefore(s, k2, k1);
      assert false;
    } else if k2 < k1 {
      SpaceBefore(s, k1, k2);
      assert false;
    }
  }

  lemma SpaceBefore(s: string, k: int, i: int)
    requires 0 <= i < k <= |s| && AllSpace(s[..k])
    ensures IsSpace(s[i])
  {
    assert s[..k][i] == s[i];
  }

  /** Of a blank-padded block of `s`, the end is fixed when the block ends with a non-space. */
  lemma PaddedEnd(s: string, r1: string, k1: int, r2: string, k2: int)
    requires Padded(s, r1, k1) && Padded(s, r2, k2)
    requires r1 != [] && !IsSpace(r1[|r1| - 1]) && r2 != [] && !IsSpace(r2[|r2| - 1])
    ensures k1 + |r1| == k2 + |r2|
  {
    var e1, e2 := k1 + |r1|, k2 + |r2|;
    if e1 < e2 {
      assert false;
    } else if e2 < e1 {
      assert false;
    }
  }

  /**
   * `strip()` is characterised by its contract: a block of `s` with only
   * whitespace around it, that is empty or begins and ends with a non-space,
   * is `Strip(s)`.
   */
  lemma StripUnique(s: string, r: string, k: int)
    requires Padded(s, r, k)
    requires r == [] || (!IsSpace(r[0]) && !IsSpace(r[|r| - 1]))
    ensures Strip(s) == r
  {
    var t := Strip(s);
    var j :| Padded(s, t, j);
    if r == [] {
      assert s == s[..k] + s[k..];
      assert forall i :: 0 <= i < |s| ==> IsSpace(s[i]) by {
        forall i | 0 <= i < |s| ensures IsSpace(s[i]) {
          if i < k { assert s[..k][i] == s[i]; } else { assert s[k..][i - k] == s[i]; }
        }
      }
    } else {
      assert !AllSpace(s) by { assert s[k] == r[0]; }
      PaddedStart(s, r, k, t, j);
      PaddedEnd(s, r, k, t, j);
    }
  }

  /** A status written with surrounding whitespace strips to the bare status. */
  lemma StripPadded(before: string, x: string, after: string)
    requires AllSpace(before) && AllSpace(after)
    requires x == [] || (!IsSpace(x[0]) && !IsSpace(x[|x| - 1]))
    ensures Strip(before + x + after) == x
  {
    var s := before + x + after;
    assert s[..|before|] == before;
    assert s[|before|..|before| + |x|] == x;
    assert s[|before| + |x|..] == after;
    StripUnique(s, x, |before|);
  }

  /** The length of the run of non-whitespace characters at the start of `t`. */
  function WordLength(t: string): (n: nat)
    ensures n <= |t|
    ensures forall i :: 0 <= i < n ==> !IsSpace(t[i])
    ensures n == |t| || IsSpace(t[n])
  {
    if t == [] || IsSpace(t[0]) then 0 else 1 + WordLength(t[1..])
  }

  /** A word of `s.split()`: non-empty, with no whitespace in it. */
  predicate IsWord(x: string) {
    x != [] && forall j :: 0 <= j < |x| ==> !IsSpace(x[j])
  }

  /**
   * `s.split()`: the maximal runs of non-whitespace characters, left to right.
   * It is empty exactly when `s` is blank, and every piece is a word.
   */
  function Words(s: string): (w: seq<string>)
    ensures w == [] <==> AllSpace(s)
    ensures forall i :: 0 <= i < |w| ==> IsWord(w[i])
    decreases |s|
  {
    TrimLeftFacts(s);
    var t := TrimLeft(s);
    if t == [] then
      assert s[..|s|] == s;
      []
    else
      var n := WordLength(t);
      NotBlank(s, |s| - |t|);
      var rest := Words(t[n..]);
      [t[..n]] + rest
  }

  lemma NotBlank(s: string, k: int)
    requires 0 <= k < |s| && !IsSpace(s[k])
    ensures !AllSpace(s)
  {
  }

  lemma {:induction false} WordLengthOf(w: string, rest: string)
    requires forall j :: 0 <= j < |w| ==> !IsSpace(w[j])
    requires rest == [] || IsSpace(rest[0])
    ensures WordLength(w + rest) == |w|
  {
    if w != [] {
      assert (w + rest)[1..] == w[1..] + rest;
      WordLengthOf(w[1..], rest);
    } else {
      assert w + rest == rest;
    }
  }

  /** A word followed by whitespace (or nothing) is the first piece of `split()`. */
  lemma FirstWord(w: string, rest: string)
    requires IsWord(w)
    requires rest == [] || IsSpace(rest[0])
    ensures Words(w + rest) != [] && Words(w + rest)[0] == w
  {
    var s := w + rest;
    assert s[0] == w[0];
    assert TrimLeft(s) == s;
    TrimLeftFacts(s);
    WordLengthOf(w, rest);
    assert s[..|w|] == w;
  }

  /** `lstrip` removes exactly a blank prefix standing before a non-space. */
  lemma {:induction false} TrimLeftBlankPrefix(ws: string, x: string)
    requires AllSpace(ws)
    requires x == [] || !IsSpace(x[0])
    ensures TrimLeft(ws + x) == x
    decreases |ws|
  {
    if ws == [] {
      assert ws + x == x;
    } else {
      assert (ws + x)[0] == ws[0];
      assert (ws + x)[1..] == ws[1..] + x;
      TrimLeftBlankPrefix(ws[1..], x);
    }
  }

  /**
   * `split()` takes the words of `s` one by one, left to right: after any
   * leading whitespace, the first word (up to the next whitespace or the end)
   * is the first piece, and the rest are the pieces of what follows it.
   */
  lemma WordsAfterBlank(ws: string, w: string, rest: string)
    requires AllSpace(ws) && IsWord(w)
    requires rest == [] || IsSpace(rest[0])
    ensures Words(ws + w + rest) == [w] + Words(rest)
  {
    var s := ws + w + rest;
    assert s == ws + (w + rest);
    assert (w + rest)[0] == w[0];
    TrimLeftBlankPrefix(ws, w + rest);
    WordLengthOf(w, rest);
    assert (w + rest)[..|w|] == w;
    assert (w + rest)[|w|..] == rest;
  }

  /** `s.split(sep)`: the pieces between occurrences of `sep`; there is always at least one. */
  function SplitOn(s: string, sep: char): (parts: seq<string>)
    ensures |parts| >= 1
    ensures forall i :: 0 <= i < |parts| ==> sep !in parts[i]
    ensures sep !in s ==> parts == [s]
  {
    if s == [] then [[]]
    else
      var rest := SplitOn(s[1..], sep);
      if s[0] == sep then [[]] + rest
      else
        assert sep !in s ==> sep !in s[1..];
        assert sep !in s ==> s == [s[0]] + s[1..];
        [[s[0]] + rest[0]] + rest[1..]
  }

  /** `sep.join(parts)`, the inverse of `SplitOn`. */
  function JoinWith(parts: seq<string>, sep: char): string
  {
    if parts == [] then []
    else if |parts| == 1 then parts[0]
    else parts[0] + [sep] + JoinWith(parts[1..], sep)
  }

  /** Splitting loses nothing: joining the pieces with the separator gives back the input. */
  lemma {:induction false} JoinSplit(s: string, sep: char)
    ensures JoinWith(SplitOn(s, sep), sep) == s
  {
    if s != [] {
      JoinSplit(s[1..], sep);
      var rest := SplitOn(s[1..], sep);
      if s[0] == sep {
        assert SplitOn(s, sep) == [[]] + rest;
        assert ([[]] + rest)[1..] == rest;
      } else {
        var parts := [[s[0]] + rest[0]] + rest[1..];
        assert SplitOn(s, sep) == parts;
        if |rest| == 1 {
          assert JoinWith(rest, sep) == rest[0];
        } else {
          assert parts[1..] == rest[1..];
          assert JoinWith(rest, sep) == rest[0] + [sep] + JoinWith(rest[1..], sep);
        }
      }
    }
  }

  /** ASCII `str.lower` of one character. */
  function LowerChar(c: char): char {
    if 'A' <= c <= 'Z' then (c as int + 32) as char else c
  }

  /** `s.lower()`, character by character. */
  function Lower(s: string): string {
    seq(|s|, i requires 0 <= i < |s| => LowerChar(s[i]))
  }

  /**
   * `lower()` keeps the length, leaves no upper-case ASCII letter, and changes
   * exactly the characters that are upper-case letters.
   */
  lemma LowerFacts(s: string)
    ensures |Lower(s)| == |s|
    ensures forall i :: 0 <= i < |s| ==> !('A' <= Lower(s)[i] <= 'Z')
    ensures forall i :: 0 <= i < |s| ==> (Lower(s)[i] != s[i] <==> 'A' <= s[i] <= 'Z')
  {
  }

  /** Lower-casing twice is lower-casing once. */
  lemma LowerIdempotent(s: string)
    ensures Lower(Lower(s)) == Lower(s)
  {
    LowerFacts(s);
    assert forall i :: 0 <= i < |s| ==> Lower(Lower(s))[i] == Lower(s)[i];
  }

  /** Lower-casing a name and then taking its tail is lower-casing the tail. */
  lemma LowerSuffix(s: string, k: nat)
    requires k <= |s|
    ensures Lower(s)[k..] == Lower(s[k..])
  {
    assert forall i :: 0 <= i < |s| - k ==> Lower(s)[k..][i] == Lower(s[k..])[i];
  }

  /** `s.lower().endswith(e)` holds exactly when the tail of `s` as long as `e` lower-cases to `e`. */
  lemma EndsWithLower(s: string, e: string)
    ensures EndsWith(Lower(s), e) <==> |e| <= |s| && Lower(s[|s| - |e|..]) == e
  {
    LowerFacts(s);
    if |e| <= |s| {
      LowerSuffix(s, |s| - |e|);
    }
  }

  /** `s.endswith(suffix)`. */
  predicate EndsWith(s: string, suffix: string) {
    |suffix| <= |s| && s[|s| - |suffix|..] == suffix
  }

  /** `sub` occurs in `s` starting at position `k`. */
  predicate OccursAt(s: string, sub: string, k: int) {
    0 <= k <= |s| - |sub| && s[k..k + |sub|] == sub
  }

  /** `sub in s`: `sub` occurs in `s` as a contiguous block. */
  predicate Contains(s: string, sub: string)
    decreases |s|
  {
    sub <= s || (s != [] && Contains(s[1..], sub))
  }

  /** A block found in `s` is still found after a prefix is put in front of `s`. */
  lemma {:induction false} ContainsAfter(prefix: string, s: string, sub: string)
    requires Contains(s, sub)
    ensures Contains(prefix + s, sub)
    decreases |prefix|
  {
    if prefix == [] {
      assert prefix + s == s;
    } else {
      assert (prefix + s)[1..] == prefix[1..] + s;
      ContainsAfter(prefix[1..], s, sub);
    }
  }

  /** A block `Contains` finds is at some position of `s`. */
  lemma {:induction false} ContainsFindsBlock(s: string, sub: string)
    requires Contains(s, sub)
    ensures exists k :: OccursAt(s, sub, k)
    decreases |s|
  {
    if sub <= s {
      assert OccursAt(s, sub, 0);
    } else {
      ContainsFindsBlock(s[1..], sub);
      var k :| OccursAt(s[1..], sub, k);
      assert s[k + 1..k + 1 + |sub|] == s[1..][k..k + |sub|];
      assert OccursAt(s, sub, k + 1);
    }
  }

  /** A block at any position of `s` is found by `Contains`. */
  lemma {:induction false} BlockIsContained(s: string, sub: string, k: int)
    requires OccursAt(s, sub, k)
    ensures Contains(s, sub)
    decreases k
  {
    if k == 0 {
      assert sub <= s;
    } else {
      assert s[1..][k - 1..k - 1 + |sub|] == s[k..k + |sub|];
      BlockIsContained(s[1..], sub, k - 1);
    }
  }

  /** `Contains` finds exactly the blocks of `s` equal to `sub`. */
  lemma ContainsAt(s: string, sub: string)
    ensures Contains(s, sub) <==> exists k :: OccursAt(s, sub, k)
  {
    if Contains(s, sub) {
      ContainsFindsBlock(s, sub);
    }
    if exists k :: OccursAt(s, sub, k) {
      var k :| OccursAt(s, sub, k);
      BlockIsContained(s, sub, k);
    }
  }
}
