/**
  The handful of Python `str` operations the clipboard extension relies on:
  `lower()`, `strip()`, `split('\n')`, `'\n'.join(...)`, `count('\n')` and the
  substring test `sub in s`. Strings are sequences of Unicode scalar values.
 */
module Text {

  /** The line separator used by `split('\n')` and `'\n'.join(...)`. */
  const NL: char := '\n'

  /** The characters for which Python's `str.isspace()` holds; `strip()` with
      no argument removes exactly these from both ends. */
  predicate IsSpace(c: char) {
    || c == ' '
    || ('\t' <= c <= '\r')
    || ('\U{1C}' <= c <= '\U{1F}')
    || c == '\U{85}' || c == '\U{A0}' || c == '\U{1680}'
    || ('\U{2000}' <= c <= '\U{200A}')
    || c == '\U{2028}' || c == '\U{2029}' || c == '\U{202F}'
    || c == '\U{205F}' || c == '\U{3000}'
  }

  predicate IsUpper(c: char) {
    'A' <= c <= 'Z'
  }

  function LowerChar(c: char): (d: char)
    ensures !IsUpper(d)
    ensures IsUpper(c) ==> d as int == c as int + 32
    ensures !IsUpper(c) ==> d == c
  {
    if IsUpper(c) then (c as int + 32) as char else c
  }

  /** `s.lower()`, restricted to the ASCII letters. */
  function Lower(s: string): (r: string)
    ensures |r| == |s|
    ensures forall i :: 0 <= i < |r| ==> !IsUpper(r[i])
    ensures forall i :: 0 <= i < |s| && IsUpper(s[i]) ==> r[i] as int == s[i] as int + 32
    ensures forall i :: 0 <= i < |s| && !IsUpper(s[i]) ==> r[i] == s[i]
  {
    seq(|s|, i requires 0 <= i < |s| => LowerChar(s[i]))
  }

  lemma LowerIdempotent(s: string)
    ensures Lower(Lower(s)) == Lower(s)
  {
  }

  /** Lowering commutes with taking a slice. */
  lemma LowerSlice(s: string, i: int, j: int)
    requires 0 <= i <= j <= |s|
    ensures Lower(s[i..j]) == Lower(s)[i..j]
  {
  }

  /** Python's `sub in s`: `sub` occurs in `s` as a contiguous block. */
  predicate Contains(s: string, sub: string) {
    exists i | 0 <= i <= |s| - |sub| :: OccursAt(s, sub, i)
  }

  /** `sub` occurs in `s` starting at offset `i`. */
  predicate OccursAt(s: string, sub: string, i: int) {
    0 <= i <= |s| - |sub| && s[i..i + |sub|] == sub
  }

  lemma ContainsSelf(s: string)
    ensures Contains(s, s)
  {
    assert OccursAt(s, s, 0);
  }

  /** Occurrence is transitive: a block of a block of `c` is a block of `c`. */
  lemma ContainsTransitive(c: string, b: string, a: string)
    requires Contains(c, b) && Contains(b, a)
    ensures Contains(c, a)
  {
    var i :| 0 <= i <= |c| - |b| && OccursAt(c, b, i);
    var j :| 0 <= j <= |b| - |a| && OccursAt(b, a, j);
    assert c[i..i + |b|] == b && b[j..j + |a|] == a;
    forall k | 0 <= k < |a| ensures c[i + j + k] == a[k] {
      assert a[k] == b[j..j + |a|][k] == b[j + k];
      assert b[j + k] == c[i..i + |b|][j + k] == c[i + j + k];
    }
    assert c[i + j..i + j + |a|] == a;
    assert OccursAt(c, a, i + j);
  }

  /** A block of `s` stays a block of `s` once both are lowered. */
  lemma ContainsLower(s: string, sub: string)
    requires Contains(s, sub)
    ensures Contains(Lower(s), Lower(sub))
  {
    var i :| 0 <= i <= |s| - |sub| && OccursAt(s, sub, i);
    LowerSlice(s, i, i + |sub|);
    assert OccursAt(Lower(s), Lower(sub), i);
  }

  /** `s.rstrip()`: the longest prefix of `s` that does not end in whitespace. */
  function TrimEnd(s: string): (r: string)
    ensures |r| <= |s| && r == s[..|r|]
    ensures forall k :: |r| <= k < |s| ==> IsSpace(s[k])
    ensures r == [] || !IsSpace(r[|r| - 1])
  {
    if |s| > 0 && IsSpace(s[|s| - 1]) then TrimEnd(s[..|s| - 1]) else s
  }

  /** `s.lstrip()`: the longest suffix of `s` that does not start with whitespace. */
  function TrimStart(s: string): (r: string)
    ensures |r| <= |s| && r == s[|s| - |r|..]
    ensures forall k :: 0 <= k < |s| - |r| ==> IsSpace(s[k])
    ensures r == [] || !IsSpace(r[0])
  {
    if |s| > 0 && IsSpace(s[0]) then TrimStart(s[1..]) else s
  }

  /** `s.strip()`: `s` with its leading and trailing whitespace removed. */
  function Strip(s: string): (r: string)
    ensures |r| <= |s|
    ensures r == [] || (!IsSpace(r[0]) && !IsSpace(r[|r| - 1]))
  {
    var t := TrimEnd(s);
    var r := TrimStart(t);
    assert r != [] ==> r[|r| - 1] == t[|t| - 1];
    r
  }

  /** The result of `strip()` is a block of `s` at some offset `a`, and
      everything before and after that block is whitespace. */
  lemma StripSpec(s: string)
    ensures exists a :: StrippedAt(s, Strip(s), a)
  {
    var t := TrimEnd(s);
    var r := TrimStart(t);
    StripWitness(s, t, r);
    assert Strip(s) == r;
    assert StrippedAt(s, Strip(s), |t| - |r|);
  }

  /** `r` sits in `s` at offset `a` with only whitespace around it. */
  predicate StrippedAt(s: string, r: string, a: int) {
    && 0 <= a <= |s| - |r|
    && s[a..a + |r|] == r
    && (forall k :: 0 <= k < a ==> IsSpace(s[k]))
    && (forall k :: a + |r| <= k < |s| ==> IsSpace(s[k]))
  }

  lemma StripWitness(s: string, t: string, r: string)
    requires t == TrimEnd(s) && r == TrimStart(t)
    ensures StrippedAt(s, r, |t| - |r|)
  {
    var a := |t| - |r|;
    assert s[a..a + |r|] == t[a..];
    forall k | 0 <= k < a ensures IsSpace(s[k]) {
      assert s[k] == t[k];
    }
  }

  lemma StripContained(s: string)
    ensures Contains(s, Strip(s))
  {
    StripSpec(s);
    var a :| StrippedAt(s, Strip(s), a);
    assert OccursAt(s, Strip(s), a);
  }

  /** `s` is all whitespace (or empty). */
  predicate Blank(s: string) {
    forall k :: 0 <= k < |s| ==> IsSpace(s[k])
  }

  /** A stripped string is empty exactly when the original is all whitespace,
      which is what Python's `if line.strip():` tests. */
  lemma {:induction false} StripEmptyIff(s: string)
    ensures Strip(s) == [] <==> Blank(s)
  {
    var r := Strip(s);
    StripSpec(s);
    var a :| StrippedAt(s, r, a);
    if r == [] {
      forall k | 0 <= k < |s| ensures IsSpace(s[k]) {
        if k >= a {
          assert a + |r| <= k;
        }
      }
    } else {
      assert s[a] == r[0];
    }
  }

  /** A string made of blocks of `s` contains no separator that `s` lacks. */
  lemma NotInSlice(s: string, c: char, i: int, j: int)
    requires 0 <= i <= j <= |s| && c !in s
    ensures c !in s[i..j]
  {
  }

  lemma StripKeepsOut(s: string, c: char)
    requires c !in s
    ensures c !in Strip(s)
  {
    StripSpec(s);
    var a :| StrippedAt(s, Strip(s), a);
    NotInSlice(s, c, a, a + |Strip(s)|);
  }

  /** `s.count(c)` for a one-character `c`: the number of occurrences of `c`,
      that is, its multiplicity in `s`. */
  function CountChar(s: string, c: char): (n: nat)
    ensures n <= |s|
    ensures n == 0 <==> c !in s
  {
    if |s| == 0 then 0
    else
      assert c in s <==> s[0] == c || c in s[1..];
      (if s[0] == c then 1 else 0) + CountChar(s[1..], c)
  }

  /** Counting distributes over concatenation. */
  lemma {:induction false} CountCharConcat(a: string, b: string, c: char)
    ensures CountChar(a + b, c) == CountChar(a, c) + CountChar(b, c)
  {
    if |a| == 0 {
      assert a + b == b;
    } else {
      CountCharConcat(a[1..], b, c);
      assert (a + b)[1..] == a[1..] + b;
    }
  }

  /** The count is the multiplicity of `c` in `s`. */
  lemma {:induction false} CountCharMultiplicity(s: string, c: char)
    ensures CountChar(s, c) == multiset(s)[c]
  {
    if |s| > 0 {
      CountCharMultiplicity(s[1..], c);
      assert s == [s[0]] + s[1..];
    }
  }

  /** `s.split(sep)`: the maximal separator-free pieces between separators.
      There is always at least one piece, and `""` splits into `[""]`. */
  function Split(s: string, sep: char): (r: seq<string>)
    ensures |r| >= 1
    ensures forall k :: 0 <= k < |r| ==> sep !in r[k]
  {
    if |s| == 0 then [""]
    else
      var rest := Split(s[1..], sep);
      if s[0] == sep then [""] + rest
      else [[s[0]] + rest[0]] + rest[1..]
  }

  /** `sep.join(lines)`: joining separator-free pieces puts exactly one
      separator between each two neighbours and no other. */
  function Join(lines: seq<string>, sep: char): (j: string)
    ensures (forall k :: 0 <= k < |lines| ==> sep !in lines[k]) ==>
      CountChar(j, sep) == if |lines| == 0 then 0 else |lines| - 1
  {
    if |lines| == 0 then ""
    else if |lines| == 1 then lines[0]
    else
      var rest := Join(lines[1..], sep);
      CountCharConcat(lines[0] + [sep], rest, sep);
      CountCharConcat(lines[0], [sep], sep);
      lines[0] + [sep] + rest
  }

  /** Prepending to the first piece prepends to the joined string. */
  lemma JoinConsFirst(c: char, lines: seq<string>, sep: char)
    requires |lines| >= 1
    ensures Join([[c] + lines[0]] + lines[1..], sep) == [c] + Join(lines, sep)
  {
    var l := [[c] + lines[0]] + lines[1..];
    assert l[1..] == lines[1..];
  }

  /** Joining the pieces of a split gives back the string. */
  lemma {:induction false} JoinSplit(s: string, sep: char)
    ensures Join(Split(s, sep), sep) == s
  {
    if |s| == 0 {
    } else {
      var rest := Split(s[1..], sep);
      JoinSplit(s[1..], sep);
      if s[0] == sep {
        var l := [""] + rest;
        assert l[1..] == rest;
        assert s == [s[0]] + s[1..];
      } else {
        JoinConsFirst(s[0], rest, sep);
        assert s == [s[0]] + s[1..];
      }
    }
  }

  /** A separator-free string splits into itself. */
  lemma {:induction false} SplitNoSep(w: string, sep: char)
    requires sep !in w
    ensures Split(w, sep) == [w]
  {
    if |w| > 0 {
      SplitNoSep(w[1..], sep);
      assert w == [w[0]] + w[1..];
    }
  }

  /** Splitting at the first separator. */
  lemma {:induction false} SplitAtSep(w: string, t: string, sep: char)
    requires sep !in w
    ensures Split(w + [sep] + t, sep) == [w] + Split(t, sep)
  {
    var s := w + [sep] + t;
    if |w| == 0 {
      assert s[1..] == t;
    } else {
      assert s[1..] == w[1..] + [sep] + t;
      SplitAtSep(w[1..], t, sep);
      assert w == [w[0]] + w[1..];
    }
  }

  /** Splitting a join of separator-free pieces gives back the pieces. */
  lemma {:induction false} SplitJoin(lines: seq<string>, sep: char)
    requires |lines| >= 1
    requires forall k :: 0 <= k < |lines| ==> sep !in lines[k]
    ensures Split(Join(lines, sep), sep) == lines
  {
    if |lines| == 1 {
      SplitNoSep(lines[0], sep);
    } else {
      SplitJoin(lines[1..], sep);
      SplitAtSep(lines[0], Join(lines[1..], sep), sep);
      assert lines == [lines[0]] + lines[1..];
    }
  }

  /** There is one more piece than there are separators. */
  lemma {:induction false} SplitCount(s: string, sep: char)
    ensures |Split(s, sep)| == CountChar(s, sep) + 1
  {
    if |s| > 0 {
      SplitCount(s[1..], sep);
    }
  }

  /** Every piece of a join occurs in the joined string. */
  lemma {:induction false} JoinContainsPieces(lines: seq<string>, sep: char)
    ensures forall k :: 0 <= k < |lines| ==> Contains(Join(lines, sep), lines[k])
  {
    if |lines| == 1 {
      ContainsSelf(lines[0]);
    } else if |lines| > 1 {
      var j := Join(lines, sep);
      var tail := Join(lines[1..], sep);
      var off := |lines[0]| + 1;
      JoinContainsPieces(lines[1..], sep);
      assert OccursAt(j, lines[0], 0);
      forall k | 1 <= k < |lines| ensures Contains(j, lines[k]) {
        assert lines[k] == lines[1..][k - 1];
        var i :| 0 <= i <= |tail| - |lines[k]| && OccursAt(tail, lines[k], i);
        assert j[off + i..off + i + |lines[k]|] == tail[i..i + |lines[k]|];
        assert OccursAt(j, lines[k], off + i);
      }
    }
  }

  /** Every piece of a split occurs in the split string. */
  lemma SplitPiecesContained(s: string, sep: char)
    ensures forall k :: 0 <= k < |Split(s, sep)| ==> Contains(s, Split(s, sep)[k])
  {
    JoinSplit(s, sep);
    JoinContainsPieces(Split(s, sep), sep);
  }
}
