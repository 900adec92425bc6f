/** The JavaScript string operations the review bot uses: `trim`, `startsWith`,
    `split` on one character, `indexOf` and `lastIndexOf` of one character.
    Strings are sequences of characters. */
module JsStrings {

  /** The characters `\s` matches in a regular expression and `String.prototype.trim`
      strips: WhiteSpace (tab, vertical tab, form feed, space, no-break space, byte order
      mark, the Unicode space separators) and LineTerminator (LF, CR, U+2028, U+2029). */
  predicate IsWhitespace(c: char)
  {
    var n := c as int;
    n == 0x09 || n == 0x0A || n == 0x0B || n == 0x0C || n == 0x0D || n == 0x20
    || n == 0xA0 || n == 0x1680 || (0x2000 <= n <= 0x200A) || n == 0x2028 || n == 0x2029
    || n == 0x202F || n == 0x205F || n == 0x3000 || n == 0xFEFF
  }

  predicate AllWhitespace(s: string)
  {
    forall k :: 0 <= k < |s| ==> IsWhitespace(s[k])
  }

  /** Neither end of `s` is whitespace. */
  predicate IsTrimmed(s: string)
  {
    s == [] || (!IsWhitespace(s[0]) && !IsWhitespace(s[|s| - 1]))
  }

  /** `String.prototype.trimStart`: the suffix left after dropping leading whitespace
      (TrimStartCuts says what was dropped). */
  function TrimStart(s: string): (r: string)
    ensures |r| <= |s|
    ensures r == [] || !IsWhitespace(r[0])
    ensures r != [] ==> r[|r| - 1] == s[|s| - 1]
  {
    if s != [] && IsWhitespace(s[0]) then TrimStart(s[1..]) else s
  }

  /** `String.prototype.trimEnd`: the prefix left after dropping trailing whitespace
      (TrimEndCuts says what was dropped). */
  function TrimEnd(s: string): (r: string)
    ensures |r| <= |s|
    ensures r == [] || !IsWhitespace(r[|r| - 1])
    ensures r != [] ==> r[0] == s[0]
  {
    if s != [] && IsWhitespace(s[|s| - 1]) then TrimEnd(s[..|s| - 1]) else s
  }

  /** `trimStart` drops a whitespace prefix and keeps the rest. */
  lemma {:induction false} TrimStartCuts(s: string)
    ensures var r := TrimStart(s);
      r == s[|s| - |r|..] && AllWhitespace(s[..|s| - |r|])
    decreases |s|
  {
    if s != [] && IsWhitespace(s[0]) {
      var t := s[1..];
      TrimStartCuts(t);
      var r := TrimStart(t);
      assert TrimStart(s) == r;
      assert t[|t| - |r|..] == s[|s| - |r|..];
      assert s[..|s| - |r|] == [s[0]] + t[..|t| - |r|];
    }
  }

  /** `trimEnd` drops a whitespace suffix and keeps the rest. */
  lemma {:induction false} TrimEndCuts(s: string)
    ensures var r := TrimEnd(s);
      r == s[..|r|] && AllWhitespace(s[|r|..])
    decreases |s|
  {
    if s != [] && IsWhitespace(s[|s| - 1]) {
      var t := s[..|s| - 1];
      TrimEndCuts(t);
      var r := TrimEnd(t);
      assert TrimEnd(s) == r;
      assert t[..|r|] == s[..|r|];
      assert s[|r|..] == t[|r|..] + [s[|s| - 1]];
    }
  }

  /** `String.prototype.trim`: `trimEnd` of `trimStart`; the result is trimmed (TrimParts
      says what was cut off). */
  function Trim(s: string): (r: string)
    ensures |r| <= |s| && IsTrimmed(r)
  {
    TrimEnd(TrimStart(s))
  }

  lemma SlicesOfSuffix(s: string, a: nat, n: nat)
    requires a + n <= |s|
    ensures s[a..][..n] == s[a..a + n] && s[a..][n..] == s[a + n..]
  {
  }

  lemma ThreeSlices(s: string, i: nat, j: nat)
    requires i <= j <= |s|
    ensures s == s[..i] + s[i..j] + s[j..]
  {
  }

  lemma {:induction false} TrimStartOfPadded(w: string, x: string)
    requires AllWhitespace(w)
    requires x == [] || !IsWhitespace(x[0])
    ensures TrimStart(w + x) == x
    decreases |w|
  {
    if w != [] {
      assert (w + x)[1..] == w[1..] + x;
      TrimStartOfPadded(w[1..], x);
    } else {
      assert w + x == x;
    }
  }

  lemma {:induction false} TrimEndOfPadded(x: string, w: string)
    requires AllWhitespace(w)
    requires x == [] || !IsWhitespace(x[|x| - 1])
    ensures TrimEnd(x + w) == x
    decreases |w|
  {
    if w != [] {
      assert (x + w)[..|x + w| - 1] == x + w[..|w| - 1];
      TrimEndOfPadded(x, w[..|w| - 1]);
    } else {
      assert x + w == x;
    }
  }

  /** Trimming is exact: padding a trimmed string with whitespace on both sides and
      trimming gives the string back. */
  lemma TrimOfPadded(w1: string, x: string, w2: string)
    requires AllWhitespace(w1) && AllWhitespace(w2) && IsTrimmed(x)
    ensures Trim(w1 + x + w2) == x
  {
    if x == [] {
      assert w1 + x + w2 == w1 + w2;
      assert AllWhitespace(w1 + w2);
      TrimStartOfPadded(w1 + w2, []);
      assert w1 + w2 + [] == w1 + w2;
    } else {
      assert w1 + x + w2 == w1 + (x + w2);
      TrimStartOfPadded(w1, x + w2);
      TrimEndOfPadded(x, w2);
    }
  }

  /** A string is its trim with a whitespace prefix and a whitespace suffix. */
  lemma TrimParts(s: string) returns (lead: string, trail: string)
    ensures s == lead + Trim(s) + trail
    ensures AllWhitespace(lead) && AllWhitespace(trail)
  {
    var t := TrimStart(s);
    var r := TrimEnd(t);
    var a := |s| - |t|;
    TrimStartCuts(s);
    TrimEndCuts(t);
    SlicesOfSuffix(s, a, |r|);
    lead, trail := s[..a], s[a + |r|..];
    ThreeSlices(s, a, a + |r|);
  }

  /** Whitespace added on either side of a string does not change its trim. */
  lemma {:induction false} TrimIgnoresPadding(w1: string, s: string, w2: string)
    requires AllWhitespace(w1) && AllWhitespace(w2)
    ensures Trim(w1 + s + w2) == Trim(s)
  {
    var lead, trail := TrimParts(s);
    var r := Trim(s);
    Regroup(w1, lead, r, trail, w2);
    AllWhitespaceConcat(w1, lead);
    AllWhitespaceConcat(trail, w2);
    TrimOfPadded(w1 + lead, r, trail + w2);
  }

  lemma Regroup(a: string, b: string, c: string, d: string, e: string)
    ensures a + (b + c + d) + e == (a + b) + c + (d + e)
  {
  }

  lemma AllWhitespaceConcat(a: string, b: string)
    requires AllWhitespace(a) && AllWhitespace(b)
    ensures AllWhitespace(a + b)
  {
  }

  /** A trimmed string is its own trim. */
  lemma {:induction false} TrimmedIsFixed(x: string)
    requires IsTrimmed(x)
    ensures Trim(x) == x
  {
    assert [] + x + [] == x;
    TrimOfPadded([], x, []);
  }

  /** `trim` is idempotent and leaves trimmed strings alone. */
  lemma {:induction false} TrimIdempotent(s: string)
    ensures Trim(Trim(s)) == Trim(s)
    ensures IsTrimmed(s) ==> Trim(s) == s
  {
    TrimmedIsFixed(Trim(s));
    if IsTrimmed(s) {
      TrimmedIsFixed(s);
    }
  }

  /** `s.startsWith(prefix)`. */
  predicate StartsWith(s: string, prefix: string)
  {
    |prefix| <= |s| && s[..|prefix|] == prefix
  }

  /** `parts.join(sep)`. */
  function Join(parts: seq<string>, sep: char): string
  {
    if parts == [] then ""
    else if |parts| == 1 then parts[0]
    else parts[0] + [sep] + Join(parts[1..], sep)
  }

  /** `s.split(sep)` for a one-character separator; never empty (see JoinSplit and
      SplitJoin for the round trips with Join). */
  function Split(s: string, sep: char): (r: seq<string>)
    ensures |r| >= 1
    decreases |s|
  {
    if s == [] then [""]
    else
      var rest := Split(s[1..], sep);
      if s[0] == sep then [""] + rest
      else [[s[0]] + rest[0]] + rest[1..]
  }

  /** No piece of a split contains the separator. */
  lemma {:induction false} SplitPiecesFree(s: string, sep: char)
    ensures forall k :: 0 <= k < |Split(s, sep)| ==> sep !in Split(s, sep)[k]
    decreases |s|
  {
    if s != [] {
      SplitPiecesFree(s[1..], sep);
      var rest := Split(s[1..], sep);
      if s[0] == sep {
        assert Split(s, sep) == [""] + rest;
      } else {
        var r := [[s[0]] + rest[0]] + rest[1..];
        assert Split(s, sep) == r;
        assert forall k :: 1 <= k < |r| ==> r[k] == rest[k];
      }
    }
  }

  /** Joining the pieces of a split with the separator gives the string back. */
  lemma {:induction false} JoinSplit(s: string, sep: char)
    ensures Join(Split(s, sep), sep) == s
    decreases |s|
  {
    if s != [] {
      var rest := Split(s[1..], sep);
      assert Join(rest, sep) == s[1..] by {
        JoinSplit(s[1..], sep);
      }
      if s[0] == sep {
        assert Split(s, sep) == [""] + rest;
        JoinEmptyFirst(rest, sep);
      } else {
        assert Split(s, sep) == [[s[0]] + rest[0]] + rest[1..];
        JoinExtendFirst(s[0], rest, sep);
      }
      assert s == [s[0]] + s[1..];
    }
  }

  /** Joining after an empty first piece starts with the separator. */
  lemma JoinEmptyFirst(parts: seq<string>, sep: char)
    requires |parts| >= 1
    ensures Join([""] + parts, sep) == [sep] + Join(parts, sep)
  {
    assert ([""] + parts)[1..] == parts;
    assert "" + [sep] == [sep];
  }

  /** Joining after a character is put in front of the first piece starts with it. */
  lemma JoinExtendFirst(c: char, parts: seq<string>, sep: char)
    requires |parts| >= 1
    ensures Join([[c] + parts[0]] + parts[1..], sep) == [c] + Join(parts, sep)
  {
    var ps := [[c] + parts[0]] + parts[1..];
    assert ps[1..] == parts[1..];
    if |parts| > 1 {
      assert Join(ps, sep) == ([c] + parts[0]) + [sep] + Join(parts[1..], sep);
      assert Join(parts, sep) == parts[0] + [sep] + Join(parts[1..], sep);
    }
  }

  /** Split on a string with a known first character. */
  lemma SplitCons(c: char, s: string, sep: char)
    ensures var rest := Split(s, sep);
      Split([c] + s, sep) == if c == sep then [""] + rest else [[c] + rest[0]] + rest[1..]
  {
    assert ([c] + s)[1..] == s;
  }

  /** The law SplitConcat states, for `a` and `b`. */
  ghost predicate SplitsConcat(a: string, b: string, sep: char)
  {
    var A := Split(a, sep); var B := Split(b, sep);
    Split(a + b, sep) == A[..|A| - 1] + [A[|A| - 1] + B[0]] + B[1..]
  }

  lemma SplitConcatSeparatorStep(a': string, b: string, sep: char)
    requires SplitsConcat(a', b, sep)
    ensures SplitsConcat([sep] + a', b, sep)
  {
    var A, A', B, R := Split([sep] + a', sep), Split(a', sep), Split(b, sep), Split(a' + b, sep);
    assert A == [""] + A' by {
      SplitCons(sep, a', sep);
    }
    assert Split([sep] + a' + b, sep) == [""] + R by {
      assert [sep] + a' + b == [sep] + (a' + b);
      SplitCons(sep, a' + b, sep);
    }
    PrependEmptyPiece(A, A', B, R);
  }

  lemma PrependEmptyPiece(A: seq<string>, A': seq<string>, B: seq<string>, R: seq<string>)
    requires |A'| >= 1 && |B| >= 1
    requires A == [""] + A'
    requires R == A'[..|A'| - 1] + [A'[|A'| - 1] + B[0]] + B[1..]
    ensures [""] + R == A[..|A| - 1] + [A[|A| - 1] + B[0]] + B[1..]
  {
    assert A[..|A| - 1] == [""] + A'[..|A'| - 1];
    assert A[|A| - 1] == A'[|A'| - 1];
  }

  lemma SplitConcatOtherStep(c: char, a': string, b: string, sep: char)
    requires c != sep
    requires SplitsConcat(a', b, sep)
    ensures SplitsConcat([c] + a', b, sep)
  {
    assert [c] + a' + b == [c] + (a' + b);
    SplitCons(c, a', sep);
    SplitCons(c, a' + b, sep);
    if |Split(a', sep)| == 1 {
      FuseSinglePiece(c, Split([c] + a', sep), Split(a', sep), Split(b, sep), Split(a' + b, sep));
    } else {
      FuseSeveralPieces(c, Split([c] + a', sep), Split(a', sep), Split(b, sep), Split(a' + b, sep));
    }
  }

  lemma FuseSinglePiece(c: char, A: seq<string>, A': seq<string>, B: seq<string>, R: seq<string>)
    requires |A'| == 1 && |B| >= 1
    requires A == [[c] + A'[0]] + A'[1..]
    requires R == A'[..|A'| - 1] + [A'[|A'| - 1] + B[0]] + B[1..]
    ensures [[c] + R[0]] + R[1..] == A[..|A| - 1] + [A[|A| - 1] + B[0]] + B[1..]
  {
    assert R == [A'[0] + B[0]] + B[1..];
    assert [c] + (A'[0] + B[0]) == ([c] + A'[0]) + B[0];
    assert A == [[c] + A'[0]];
  }

  lemma FuseSeveralPieces(c: char, A: seq<string>, A': seq<string>, B: seq<string>, R: seq<string>)
    requires |A'| > 1 && |B| >= 1
    requires A == [[c] + A'[0]] + A'[1..]
    requires R == A'[..|A'| - 1] + [A'[|A'| - 1] + B[0]] + B[1..]
    ensures [[c] + R[0]] + R[1..] == A[..|A| - 1] + [A[|A| - 1] + B[0]] + B[1..]
  {
    assert R[0] == A'[0];
    assert R[1..] == A'[1..|A'| - 1] + [A'[|A'| - 1] + B[0]] + B[1..];
    assert A[..|A| - 1] == [[c] + A'[0]] + A'[1..|A'| - 1];
    assert A[|A| - 1] == A'[|A'| - 1];
  }

  lemma SplitConcatEmpty(b: string, sep: char)
    ensures SplitsConcat([], b, sep)
  {
    var A, B := Split([], sep), Split(b, sep);
    assert [] + b == b;
    assert A[..|A| - 1] == [];
    assert A[|A| - 1] + B[0] == B[0];
    assert [B[0]] + B[1..] == B;
  }

  /** Splitting a concatenation: the last piece of `a` and the first piece of `b` fuse. */
  lemma {:induction false} SplitConcat(a: string, b: string, sep: char)
    ensures var A := Split(a, sep); var B := Split(b, sep);
      Split(a + b, sep) == A[..|A| - 1] + [A[|A| - 1] + B[0]] + B[1..]
    decreases |a|
  {
    if a == [] {
      SplitConcatEmpty(b, sep);
    } else {
      SplitConcat(a[1..], b, sep);
      if a[0] == sep {
        SplitConcatSeparatorStep(a[1..], b, sep);
      } else {
        SplitConcatOtherStep(a[0], a[1..], b, sep);
      }
      assert a == [a[0]] + a[1..];
    }
  }

  lemma {:induction false} SplitWithoutSeparator(s: string, sep: char)
    requires sep !in s
    ensures Split(s, sep) == [s]
    decreases |s|
  {
    if s != [] {
      SplitWithoutSeparator(s[1..], sep);
      assert s == [s[0]] + s[1..];
    }
  }

  /** A trailing separator adds one empty piece. */
  lemma SplitEndingInSeparator(a: string, sep: char)
    ensures Split(a + [sep], sep) == Split(a, sep) + [""]
  {
    SplitConcat(a, [sep], sep);
    assert Split([sep], sep) == ["", ""] by {
      assert [sep][1..] == [];
    }
    var A := Split(a, sep);
    assert A[|A| - 1] + "" == A[|A| - 1];
    assert A[..|A| - 1] + [A[|A| - 1]] == A;
  }

  /** The other round trip: joining pieces free of the separator and splitting again
      gives the pieces back. */
  lemma {:induction false} SplitJoin(parts: seq<string>, sep: char)
    requires |parts| >= 1
    requires forall k :: 0 <= k < |parts| ==> sep !in parts[k]
    ensures Split(Join(parts, sep), sep) == parts
    decreases |parts|
  {
    if |parts| == 1 {
      SplitWithoutSeparator(parts[0], sep);
    } else {
      var rest := Join(parts[1..], sep);
      assert forall k :: 0 <= k < |parts[1..]| ==> sep !in parts[1..][k] by {
        forall k | 0 <= k < |parts[1..]| ensures sep !in parts[1..][k] {
          assert parts[1..][k] == parts[k + 1];
        }
      }
      SplitJoin(parts[1..], sep);
      assert sep !in parts[0];
      SplitAfterPiece(parts[0], rest, parts[1..], sep);
      assert Join(parts, sep) == parts[0] + [sep] + rest;
      assert parts == [parts[0]] + parts[1..];
    }
  }

  /** A piece free of the separator, then the separator, then text: the piece comes first
      and the text's pieces follow. */
  lemma SplitAfterPiece(p: string, rest: string, pieces: seq<string>, sep: char)
    requires sep !in p
    requires Split(rest, sep) == pieces
    ensures Split(p + [sep] + rest, sep) == [p] + pieces
  {
    assert Split(p + [sep], sep) == [p, ""] by {
      SplitWithoutSeparator(p, sep);
      SplitEndingInSeparator(p, sep);
    }
    SplitAfterSeparator(p + [sep], rest, sep);
    assert [p, ""][..1] == [p];
  }

  /** Splitting text that follows a separator: the last piece of the first part is
      empty, and the pieces of the second part follow the others unchanged. */
  lemma SplitAfterSeparator(a: string, b: string, sep: char)
    requires |a| > 0 && a[|a| - 1] == sep
    ensures var A := Split(a, sep);
      A[|A| - 1] == "" && Split(a + b, sep) == A[..|A| - 1] + Split(b, sep)
  {
    var A := Split(a, sep);
    var B := Split(b, sep);
    assert A[|A| - 1] == "" by {
      var a' := a[..|a| - 1];
      assert a == a' + [sep];
      SplitEndingInSeparator(a', sep);
    }
    SplitConcat(a, b, sep);
    FuseEmptyPiece(A, B);
  }

  /** An empty last piece fused with the first piece of what follows disappears. */
  lemma FuseEmptyPiece(A: seq<string>, B: seq<string>)
    requires |A| >= 1 && |B| >= 1 && A[|A| - 1] == ""
    ensures A[..|A| - 1] + [A[|A| - 1] + B[0]] + B[1..] == A[..|A| - 1] + B
  {
    assert A[|A| - 1] + B[0] == B[0];
    assert [B[0]] + B[1..] == B;
    assert A[..|A| - 1] + [B[0]] + B[1..] == A[..|A| - 1] + ([B[0]] + B[1..]);
  }

  /** `s.indexOf(c)`: the first position holding `c`, or -1 when there is none. */
  function IndexOf(s: string, c: char): (r: int)
    ensures -1 <= r < |s|
    ensures r == -1 <==> c !in s
    ensures r >= 0 ==> s[r] == c && c !in s[..r]
  {
    if s == [] then -1
    else if s[0] == c then 0
    else
      var k := IndexOf(s[1..], c);
      assert s == [s[0]] + s[1..];
      if k == -1 then -1
      else
        assert s[..k + 1] == [s[0]] + s[1..][..k];
        k + 1
  }

  /** `s.lastIndexOf(c)`: the last position holding `c`, or -1 when there is none. */
  function LastIndexOf(s: string, c: char): (r: int)
    ensures -1 <= r < |s|
    ensures r == -1 <==> c !in s
    ensures r >= 0 ==> s[r] == c && c !in s[r + 1..]
  {
    if s == [] then -1
    else if s[|s| - 1] == c then |s| - 1
    else
      var k := LastIndexOf(s[..|s| - 1], c);
      assert s == s[..|s| - 1] + [s[|s| - 1]];
      if k >= 0 then assert s[k + 1..] == s[..|s| - 1][k + 1..] + [s[|s| - 1]]; k
      else k
  }
}
