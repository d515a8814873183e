/**
 * The JavaScript string operations the application uses, over `seq<char>`:
 * `toLowerCase` (ASCII letters only), `includes`, `trim`, `split` on one
 * character, `split` on a run of delimiter characters (`/[.!?]+/`) and `join`.
 */
module Text {
  import Seqs

  /**
   * The code points ECMAScript counts as WhiteSpace or LineTerminator: what
   * `String.prototype.trim` strips and what the regular-expression class `\s`
   * matches.
   */
  predicate IsSpace(c: char) {
    || c == ' ' || c == '\t' || c == '\n' || c == '\r' || c == '\U{B}' || c == '\U{C}'
    || c == '\U{A0}' || c == '\U{1680}' || ('\U{2000}' <= c <= '\U{200A}')
    || c == '\U{2028}' || c == '\U{2029}' || c == '\U{202F}' || c == '\U{205F}'
    || c == '\U{3000}' || c == '\U{FEFF}'
  }

  /** The regular-expression class `\d`. */
  predicate IsDigit(c: char) {
    '0' <= c <= '9'
  }

  /** `toLowerCase` on one character, restricted to ASCII letters. */
  function LowerChar(c: char): (d: char)
    ensures 'A' <= c <= 'Z' ==> d as int == c as int + 32
    ensures !('A' <= c <= 'Z') ==> d == c
  {
    if 'A' <= c <= 'Z' then (c as int + 32) as char else c
  }

  /** Lowercasing neither makes nor removes whitespace or digits. */
  lemma LowerCharClass(c: char)
    ensures IsSpace(LowerChar(c)) == IsSpace(c)
    ensures IsDigit(LowerChar(c)) == IsDigit(c)
  {
  }

  /** `s.toLowerCase()`, restricted to ASCII letters. */
  function Lower(s: string): (r: string)
    ensures |r| == |s|
    ensures forall i :: 0 <= i < |s| ==> r[i] == LowerChar(s[i])
  {
    if s == [] then [] else [LowerChar(s[0])] + Lower(s[1..])
  }

  /** `s.includes(t)`: `t` occurs in `s` as a contiguous substring. */
  predicate Contains(s: string, t: string)
    decreases |s|
  {
    t <= s || (|s| > 0 && Contains(s[1..], t))
  }

  /** An occurrence at a known position makes `Contains` true. */
  lemma {:induction false} ContainsAt(s: string, t: string, i: nat)
    requires i + |t| <= |s| && s[i..i + |t|] == t
    ensures Contains(s, t)
    decreases i
  {
    if i == 0 {
      assert s[..|t|] == t;
    } else {
      assert s[1..][i - 1..i - 1 + |t|] == s[i..i + |t|];
      ContainsAt(s[1..], t, i - 1);
    }
  }

  /** Every substring test that succeeds has a position. */
  lemma {:induction false} ContainsIndex(s: string, t: string) returns (i: nat)
    requires Contains(s, t)
    ensures i + |t| <= |s| && s[i..i + |t|] == t
    decreases |s|
  {
    if t <= s {
      i := 0;
    } else {
      var j := ContainsIndex(s[1..], t);
      i := j + 1;
      assert s[1..][j..j + |t|] == s[i..i + |t|];
    }
  }

  /** Lowercasing both sides keeps a case-sensitive occurrence. */
  lemma ContainsLower(s: string, t: string)
    requires Contains(s, t)
    ensures Contains(Lower(s), Lower(t))
  {
    var i := ContainsIndex(s, t);
    var ls, lt := Lower(s), Lower(t);
    forall k | 0 <= k < |t| ensures ls[i..i + |t|][k] == lt[k] {
      assert s[i..i + |t|][k] == s[i + k];
    }
    assert ls[i..i + |t|] == lt;
    ContainsAt(ls, lt, i);
  }

  /** Every character of an occurring string occurs. */
  lemma {:induction false} ContainsChar(s: string, t: string, k: nat)
    requires k < |t| && Contains(s, t)
    ensures t[k] in s
  {
    var i := ContainsIndex(s, t);
    assert s[i + k] == s[i..i + |t|][k];
  }

  /** Every adjacent pair of characters of an occurring string occurs adjacently. */
  lemma {:induction false} ContainsPair(s: string, t: string)
    requires |t| >= 2 && Contains(s, t)
    ensures exists i :: 0 <= i < |s| - 1 && s[i] == t[0] && s[i + 1] == t[1]
  {
    var i := ContainsIndex(s, t);
    assert s[i] == s[i..i + |t|][0] && s[i + 1] == s[i..i + |t|][1];
  }

  /** The string keeps no character of `chars`. */
  predicate Avoids(s: string, chars: set<char>) {
    forall k :: 0 <= k < |s| ==> s[k] !in chars
  }

  /** `trimStart`. */
  function TrimStart(s: string): string
    decreases |s|
  {
    if s != [] && IsSpace(s[0]) then TrimStart(s[1..]) else s
  }

  /** `trimStart` drops a whitespace prefix, up to the first non-space character. */
  lemma {:induction false} TrimStartSpec(s: string)
    ensures |TrimStart(s)| <= |s| && TrimStart(s) == s[|s| - |TrimStart(s)|..]
    ensures forall i :: 0 <= i < |s| - |TrimStart(s)| ==> IsSpace(s[i])
    ensures TrimStart(s) != [] ==> !IsSpace(TrimStart(s)[0])
    decreases |s|
  {
    if s != [] && IsSpace(s[0]) {
      TrimStartSpec(s[1..]);
      forall i | 1 <= i < |s| - |TrimStart(s)| ensures IsSpace(s[i]) {
        assert s[i] == s[1..][i - 1];
      }
    }
  }

  /** `trimEnd`. */
  function TrimEnd(s: string): string
    decreases |s|
  {
    if s != [] && IsSpace(s[|s| - 1]) then TrimEnd(s[..|s| - 1]) else s
  }

  /** `trimEnd` drops a whitespace suffix, back to the last non-space character. */
  lemma {:induction false} TrimEndSpec(s: string)
    ensures |TrimEnd(s)| <= |s| && TrimEnd(s) == s[..|TrimEnd(s)|]
    ensures forall i :: |TrimEnd(s)| <= i < |s| ==> IsSpace(s[i])
    ensures TrimEnd(s) != [] ==> !IsSpace(TrimEnd(s)[|TrimEnd(s)| - 1])
    decreases |s|
  {
    if s != [] && IsSpace(s[|s| - 1]) {
      TrimEndSpec(s[..|s| - 1]);
      forall i | |TrimEnd(s)| <= i < |s| - 1 ensures IsSpace(s[i]) {
        assert s[i] == s[..|s| - 1][i];
      }
    }
  }

  /** `String.prototype.trim`. */
  function Trim(s: string): string {
    TrimEnd(TrimStart(s))
  }

  /** Neither end is whitespace. */
  predicate IsTrimmed(s: string) {
    s == [] || (!IsSpace(s[0]) && !IsSpace(s[|s| - 1]))
  }

  /**
   * `trim` removes a whitespace prefix and a whitespace suffix and nothing
   * else, and what remains starts and ends with a non-space character.
   */
  lemma TrimSlice(s: string) returns (a: nat, b: nat)
    ensures a <= b <= |s| && Trim(s) == s[a..b]
    ensures forall i :: 0 <= i < a ==> IsSpace(s[i])
    ensures forall i :: b <= i < |s| ==> IsSpace(s[i])
    ensures IsTrimmed(Trim(s))
  {
    var u := TrimStart(s);
    TrimStartSpec(s);
    a := |s| - |u|;
    var v := TrimEnd(u);
    TrimEndSpec(u);
    b := a + |v|;
    SliceOfSuffix(s, a, |v|);
    forall i | b <= i < |s| ensures IsSpace(s[i]) {
      assert s[i] == u[i - a];
    }
    if v != [] {
      assert v[0] == u[0];
    }
  }

  lemma SliceOfSuffix(s: string, a: nat, n: nat)
    requires a + n <= |s|
    ensures s[a..][..n] == s[a..a + n]
  {
  }

  /** `trim` changes nothing on a string that is already trimmed. */
  lemma TrimmedUnchanged(s: string)
    requires IsTrimmed(s)
    ensures Trim(s) == s
  {
    assert TrimStart(s) == s;
    assert TrimEnd(s) == s;
  }

  /** `trim` is idempotent. */
  lemma TrimIdempotent(s: string)
    ensures Trim(Trim(s)) == Trim(s)
  {
    var a, b := TrimSlice(s);
    TrimmedUnchanged(Trim(s));
  }

  /** `trim` leaves nothing exactly when the string is all whitespace. */
  lemma TrimEmptyIff(s: string)
    ensures Trim(s) == [] <==> forall i :: 0 <= i < |s| ==> IsSpace(s[i])
  {
    var a, b := TrimSlice(s);
  }

  /** A leading blank does not survive `trim`. */
  lemma TrimAfterBlank(x: string)
    requires IsTrimmed(x)
    ensures Trim([' '] + x) == x
  {
    var y := [' '] + x;
    assert y != [] && IsSpace(y[0]) && y[1..] == x;
    assert TrimStart(y) == TrimStart(x);
    TrimmedUnchanged(x);
  }

  /** `trim` keeps only characters of its input. */
  lemma TrimAvoids(s: string, chars: set<char>)
    requires Avoids(s, chars)
    ensures Avoids(Trim(s), chars)
  {
    var a, b := TrimSlice(s);
    forall k | 0 <= k < |Trim(s)| ensures Trim(s)[k] !in chars {
      assert Trim(s)[k] == s[a + k];
    }
  }

  /**
   * An occurrence of a word whose two ends are not whitespace lies inside
   * the trimmed string.
   */
  lemma TrimKeepsWord(s: string, w: string)
    requires Contains(s, w) && |w| > 0 && !IsSpace(w[0]) && !IsSpace(w[|w| - 1])
    ensures Contains(Trim(s), w)
  {
    var i := ContainsIndex(s, w);
    var a, b := TrimSlice(s);
    WordInsideSlice(s, w, i, a, b);
    ContainsAt(Trim(s), w, i - a);
  }

  lemma WordInsideSlice(s: string, w: string, i: nat, a: nat, b: nat)
    requires i + |w| <= |s| && s[i..i + |w|] == w && |w| > 0
    requires !IsSpace(w[0]) && !IsSpace(w[|w| - 1])
    requires a <= b <= |s|
    requires forall k :: 0 <= k < a ==> IsSpace(s[k])
    requires forall k :: b <= k < |s| ==> IsSpace(s[k])
    ensures a <= i && i + |w| <= b && s[a..b][i - a..i - a + |w|] == w
  {
    var last := i + |w| - 1;
    assert s[i] == w[0] && s[last] == w[|w| - 1];
    assert a <= i by {
      if i < a { assert false; }
    }
    assert last < b by {
      if b <= last { assert false; }
    }
    var t := s[a..b];
    forall k | 0 <= k < |w| ensures t[i - a..i - a + |w|][k] == w[k] {
      assert t[i - a + k] == s[i + k];
      assert s[i..i + |w|][k] == s[i + k];
    }
  }

  /** Lowercasing and trimming commute (lowercasing neither makes nor removes whitespace). */
  lemma LowerTrim(s: string)
    ensures Lower(Trim(s)) == Trim(Lower(s))
  {
    LowerTrimStart(s);
    LowerTrimEnd(TrimStart(s));
  }

  lemma {:induction false} LowerTrimStart(s: string)
    ensures Lower(TrimStart(s)) == TrimStart(Lower(s))
    decreases |s|
  {
    var l := Lower(s);
    if s != [] {
      LowerCharClass(s[0]);
    }
    if s != [] && IsSpace(s[0]) {
      assert l != [] && IsSpace(l[0]);
      assert l[1..] == Lower(s[1..]);
      assert TrimStart(l) == TrimStart(l[1..]);
      LowerTrimStart(s[1..]);
    } else {
      assert TrimStart(s) == s;
      assert l == [] || !IsSpace(l[0]);
      assert TrimStart(l) == l;
    }
  }

  lemma {:induction false} LowerTrimEnd(s: string)
    ensures Lower(TrimEnd(s)) == TrimEnd(Lower(s))
    decreases |s|
  {
    var l := Lower(s);
    if s != [] {
      LowerCharClass(s[|s| - 1]);
    }
    if s != [] && IsSpace(s[|s| - 1]) {
      assert l != [] && IsSpace(l[|l| - 1]);
      assert l[..|l| - 1] == Lower(s[..|s| - 1]);
      assert TrimEnd(l) == TrimEnd(l[..|l| - 1]);
      LowerTrimEnd(s[..|s| - 1]);
    } else {
      assert TrimEnd(s) == s;
      assert l == [] || !IsSpace(l[|l| - 1]);
      assert TrimEnd(l) == l;
    }
  }

  /** `s.split(sep)` for a one-character separator. */
  function Split(s: string, sep: char): (r: seq<string>)
    ensures |r| >= 1
    ensures forall i :: 0 <= i < |r| ==> Avoids(r[i], {sep})
    decreases |s|
  {
    if s == [] then [""]
    else
      var rest := Split(s[1..], sep);
      if s[0] == sep then [""] + rest else [[s[0]] + rest[0]] + rest[1..]
  }

  /** `parts.join(sep)`. */
  function Join(parts: seq<string>, sep: string): string
  {
    if parts == [] then "" else if |parts| == 1 then parts[0] else parts[0] + sep + Join(parts[1..], sep)
  }

  /** Joining the pieces of a split with the same separator restores the string. */
  lemma {:induction false} JoinSplit(s: string, sep: char)
    ensures Join(Split(s, sep), [sep]) == s
    decreases |s|
  {
    if s != [] {
      var rest := Split(s[1..], sep);
      JoinSplit(s[1..], sep);
      if s[0] == sep {
        assert Split(s, sep) == [""] + rest;
      } else {
        var r := Split(s, sep);
        if |rest| == 1 {
          assert r == [[s[0]] + rest[0]];
        } else {
          assert r[1..] == rest[1..];
        }
      }
    }
  }

  /** A separator-free prefix is glued onto the first piece. */
  lemma {:induction false} SplitPrefix(x: string, s: string, sep: char)
    requires Avoids(x, {sep})
    ensures Split(x + s, sep) == [x + Split(s, sep)[0]] + Split(s, sep)[1..]
    decreases |x|
  {
    if x != [] {
      assert (x + s)[1..] == x[1..] + s;
      SplitPrefix(x[1..], s, sep);
      assert [x[0]] + (x[1..] + Split(s, sep)[0]) == x + Split(s, sep)[0];
    } else {
      var r := Split(s, sep);
      assert x + s == s && x + r[0] == r[0];
      assert [r[0]] + r[1..] == r;
    }
  }

  /** Each of `parts` with `pad` put in front. */
  function Prefixed(pad: string, parts: seq<string>): (r: seq<string>)
    ensures |r| == |parts|
    ensures forall i :: 0 <= i < |parts| ==> r[i] == pad + parts[i]
  {
    if parts == [] then [] else [pad + parts[0]] + Prefixed(pad, parts[1..])
  }

  /** An empty pad leaves the parts as they are. */
  lemma PrefixedEmpty(parts: seq<string>)
    ensures Prefixed("", parts) == parts
  {
    forall i | 0 <= i < |parts| ensures Prefixed("", parts)[i] == parts[i] {
      assert "" + parts[i] == parts[i];
    }
  }

  /**
   * Splitting `parts.join(sep + pad)` on `sep` gives the parts back, each after
   * the first carrying `pad` in front, provided no part and not `pad` contains
   * `sep`.
   */
  lemma {:induction false} SplitJoin(parts: seq<string>, sep: char, pad: string)
    requires |parts| > 0
    requires forall i :: 0 <= i < |parts| ==> Avoids(parts[i], {sep})
    requires Avoids(pad, {sep})
    ensures Split(Join(parts, [sep] + pad), sep) == [parts[0]] + Prefixed(pad, parts[1..])
    decreases |parts|
  {
    if |parts| == 1 {
      SplitPrefix(parts[0], "", sep);
      assert parts[0] + "" == parts[0];
    } else {
      var rest := parts[1..];
      var j := Join(rest, [sep] + pad);
      SplitJoin(rest, sep, pad);
      assert Join(parts, [sep] + pad) == parts[0] + ([sep] + (pad + j));
      SplitPrefix(parts[0], [sep] + (pad + j), sep);
      assert ([sep] + (pad + j))[1..] == pad + j;
      var sj := Split(pad + j, sep);
      assert Split([sep] + (pad + j), sep) == [""] + sj;
      SplitPrefix(pad, j, sep);
      assert parts[0] + "" == parts[0];
      assert sj == Prefixed(pad, rest) by {
        assert Split(j, sep) == [rest[0]] + Prefixed(pad, rest[1..]);
        assert sj == [pad + rest[0]] + Prefixed(pad, rest[1..]);
      }
    }
  }

  /**
   * `s.split(/[D]+/)` for a set `D` of delimiter characters: the string is cut
   * at every maximal run of delimiters.
   */
  function SplitRuns(s: string, delims: set<char>): (r: seq<string>)
    ensures |r| >= 1
    ensures forall i :: 0 <= i < |r| ==> Avoids(r[i], delims)
    decreases |s|
  {
    if s == [] then [""]
    else
      var rest := SplitRuns(s[1..], delims);
      if s[0] in delims then
        (if |s| > 1 && s[1] in delims then rest else [""] + rest)
      else
        [[s[0]] + rest[0]] + rest[1..]
  }

  /** A delimiter-free prefix of the string is a prefix of its first piece. */
  lemma {:induction false} FirstPieceKeepsPrefix(u: string, s: string, delims: set<char>)
    requires u <= s && Avoids(u, delims)
    ensures u <= SplitRuns(s, delims)[0]
    decreases |s|
  {
    if u != [] {
      assert s[0] == u[0];
      assert u[1..] <= s[1..];
      FirstPieceKeepsPrefix(u[1..], s[1..], delims);
      assert u == [u[0]] + u[1..];
    }
  }

  /**
   * A delimiter-free word that occurs in the string occurs whole in one of
   * its pieces.
   */
  lemma {:induction false} SomePieceContains(s: string, w: string, delims: set<char>)
    requires Contains(s, w) && Avoids(w, delims)
    ensures exists i :: 0 <= i < |SplitRuns(s, delims)| && Contains(SplitRuns(s, delims)[i], w)
    decreases |s|
  {
    var r := SplitRuns(s, delims);
    if w == [] {
      assert Contains(r[0], w);
    } else if w <= s {
      var rest := SplitRuns(s[1..], delims);
      assert s[0] == w[0] && s[0] !in delims;
      FirstPieceKeepsPrefix(w[1..], s[1..], delims);
      assert w == [s[0]] + w[1..];
      assert w <= r[0];
    } else {
      var rest := SplitRuns(s[1..], delims);
      SomePieceContains(s[1..], w, delims);
      var i :| 0 <= i < |rest| && Contains(rest[i], w);
      if s[0] in delims {
        if |s| > 1 && s[1] in delims {
          assert r[i] == rest[i];
        } else {
          assert r[i + 1] == rest[i];
        }
      } else if i == 0 {
        assert r[0] == [s[0]] + rest[0];
        assert r[0][1..] == rest[0];
      } else {
        assert r[i] == rest[i];
      }
    }
  }

  /** `parts.map(s => s.trim())`. */
  function TrimEach(parts: seq<string>): (r: seq<string>)
    ensures |r| == |parts|
    ensures forall i :: 0 <= i < |parts| ==> r[i] == Trim(parts[i])
  {
    seq(|parts|, i requires 0 <= i < |parts| => Trim(parts[i]))
  }

  /** `parts.filter(s => s.length > 0)`. */
  function NonEmpty(parts: seq<string>): seq<string> {
    Seqs.Filter(parts, (s: string) => |s| > 0)
  }

  /** Trimming every piece keeps a subsequence a subsequence. */
  lemma {:induction false} TrimEachSubsequence(a: seq<string>, b: seq<string>)
    requires Seqs.IsSubsequence(a, b)
    ensures Seqs.IsSubsequence(TrimEach(a), TrimEach(b))
    decreases |b|
  {
    if |a| > 0 {
      assert TrimEach(a)[1..] == TrimEach(a[1..]);
      assert TrimEach(b)[1..] == TrimEach(b[1..]);
      if a[0] == b[0] && Seqs.IsSubsequence(a[1..], b[1..]) {
        TrimEachSubsequence(a[1..], b[1..]);
      } else {
        TrimEachSubsequence(a, b[1..]);
      }
    }
  }

  /** Dropping the empty pieces keeps the others in order. */
  lemma NonEmptySubsequence(parts: seq<string>)
    ensures Seqs.IsSubsequence(NonEmpty(parts), parts)
  {
    Seqs.FilterIsSubsequence(parts, (s: string) => |s| > 0);
  }

  /** An occurrence needs room. */
  lemma ContainsLength(s: string, t: string)
    requires Contains(s, t)
    ensures |t| <= |s|
  {
    var i := ContainsIndex(s, t);
  }

  /** A word with a letter that is absent does not occur. */
  lemma AbsentLetter(s: string, t: string, k: nat)
    requires k < |t| && t[k] !in s
    ensures !Contains(s, t)
  {
    if Contains(s, t) {
      ContainsChar(s, t, k);
    }
  }

  /** A word whose first two letters never stand side by side does not occur. */
  lemma AbsentPair(s: string, t: string)
    requires |t| >= 2
    requires forall i :: 0 <= i < |s| - 1 ==> !(s[i] == t[0] && s[i + 1] == t[1])
    ensures !Contains(s, t)
  {
    if Contains(s, t) {
      ContainsPair(s, t);
    }
  }

  /** A string without delimiters is one piece. */
  lemma {:induction false} SplitRunsWhole(s: string, delims: set<char>)
    requires Avoids(s, delims)
    ensures SplitRuns(s, delims) == [s]
    decreases |s|
  {
    if s != [] {
      SplitRunsWhole(s[1..], delims);
      assert [s[0]] + s[1..] == s;
    }
  }

  /** What trimming the kept parts yields, as a membership test. */
  lemma TrimEachFilterIff(parts: seq<string>, p: string -> bool, x: string)
    ensures x in TrimEach(Seqs.Filter(parts, p)) <==> exists q :: q in parts && p(q) && x == Trim(q)
  {
    if x in TrimEach(Seqs.Filter(parts, p)) {
      var q := TrimmedPartOrigin(parts, p, x);
    }
    if exists q :: q in parts && p(q) && x == Trim(q) {
      var q :| q in parts && p(q) && x == Trim(q);
      TrimmedPartKept(parts, p, q);
    }
  }

  lemma TrimmedPartOrigin(parts: seq<string>, p: string -> bool, x: string) returns (q: string)
    requires x in TrimEach(Seqs.Filter(parts, p))
    ensures q in parts && p(q) && x == Trim(q)
  {
    var f := Seqs.Filter(parts, p);
    var t := TrimEach(f);
    var i :| 0 <= i < |t| && t[i] == x;
    q := f[i];
    assert f[i] in f;
  }

  lemma TrimmedPartKept(parts: seq<string>, p: string -> bool, q: string)
    requires q in parts && p(q)
    ensures Trim(q) in TrimEach(Seqs.Filter(parts, p))
  {
    var f := Seqs.Filter(parts, p);
    var t := TrimEach(f);
    var i :| 0 <= i < |f| && f[i] == q;
    assert t[i] == Trim(q);
  }

  /** Lowering commutes with slicing. */
  lemma LowerSlice(s: string, a: nat, b: nat)
    requires a <= b <= |s|
    ensures Lower(s)[a..b] == Lower(s[a..b])
  {
    var l := Lower(s);
    var m := Lower(s[a..b]);
    forall k | 0 <= k < b - a ensures l[a..b][k] == m[k] {
      assert l[a..b][k] == l[a + k] && s[a..b][k] == s[a + k];
    }
  }

  /** `s.toLowerCase().includes(t.toLowerCase())`. */
  predicate IncludesIgnoringCase(s: string, t: string) {
    Contains(Lower(s), Lower(t))
  }

  /** Some element includes the term, ignoring case. */
  predicate SomeSkillIncludes(skills: seq<string>, term: string) {
    exists i :: 0 <= i < |skills| && IncludesIgnoringCase(skills[i], term)
  }

  /** Lowering twice is lowering once. */
  lemma LowerIdempotent(s: string)
    ensures Lower(Lower(s)) == Lower(s)
  {
  }

  /** Every string includes the empty string. */
  lemma IncludesEmpty(s: string)
    ensures IncludesIgnoringCase(s, "")
  {
    assert Lower("") == "";
  }
}
