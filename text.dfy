/**
 * The handful of Python string operations the builders are made of, on
 * `string` (= `seq<char>`): `sep.join(xs)`, `s.split(sep)`, `s.replace(old, new)`,
 * `s.count(c)` and `str(n)` for integers, with the facts that connect them.
 */
module Text {

  /** Python's `sep.join(xs)`. */
  function Join(sep: string, xs: seq<string>): string
  {
    if |xs| == 0 then ""
    else if |xs| == 1 then xs[0]
    else xs[0] + sep + Join(sep, xs[1..])
  }

  /** Python's `s.split(sep)` with an explicit, non-empty separator: scans left to
      right, cuts at every non-overlapping occurrence, always yields at least one piece. */
  function SplitOn(s: string, sep: string): (r: seq<string>)
    requires |sep| > 0
    ensures |r| >= 1
    decreases |s|
  {
    if |s| < |sep| then [s]
    else if s[..|sep|] == sep then [""] + SplitOn(s[|sep|..], sep)
    else
      var rest := SplitOn(s[1..], sep);
      [[s[0]] + rest[0]] + rest[1..]
  }

  /** Python's `s.replace(pat, r)`: every non-overlapping occurrence, left to right;
      the inserted text is never rescanned. */
  function ReplaceAll(s: string, pat: string, r: string): string
    requires |pat| > 0
    decreases |s|
  {
    if |s| < |pat| then s
    else if s[..|pat|] == pat then r + ReplaceAll(s[|pat|..], pat, r)
    else [s[0]] + ReplaceAll(s[1..], pat, r)
  }

  /** Python's `s.count(c)` for a one-character argument. */
  function Count(s: string, c: char): nat
  {
    if s == [] then 0 else (if s[0] == c then 1 else 0) + Count(s[1..], c)
  }

  /** `n` copies of `x`, the list `[x for _ in range(n)]`. */
  function Repeat(x: string, n: nat): (r: seq<string>)
    ensures |r| == n && forall i :: 0 <= i < n ==> r[i] == x
  {
    seq(n, _ => x)
  }

  /** No string of `xs` contains `c`. */
  predicate Free(c: char, xs: seq<string>)
  {
    forall i :: 0 <= i < |xs| ==> c !in xs[i]
  }

  /** Every string of `ts` with `pat` replaced by `r`. */
  function ReplaceEach(ts: seq<string>, pat: string, r: string): (res: seq<string>)
    requires |pat| > 0
    ensures |res| == |ts| && forall i :: 0 <= i < |ts| ==> res[i] == ReplaceAll(ts[i], pat, r)
  {
    seq(|ts|, i requires 0 <= i < |ts| => ReplaceAll(ts[i], pat, r))
  }

  function DigitChar(d: nat): (c: char)
    requires d < 10
    ensures '0' <= c <= '9'
  {
    ('0' as int + d) as char
  }

  predicate IsDigits(s: string)
  {
    forall i :: 0 <= i < |s| ==> '0' <= s[i] <= '9'
  }

  /** Python's `str(n)` (and the `{n}` of an f-string) for a natural number. */
  function NatToString(n: nat): (r: string)
    ensures |r| >= 1 && IsDigits(r)
    ensures n < 10 <==> |r| == 1
  {
    if n < 10 then [DigitChar(n)] else NatToString(n / 10) + [DigitChar(n % 10)]
  }

  /** Python's `str(i)` for an integer. */
  function IntToString(i: int): (r: string)
    ensures |r| >= 1
    ensures i < 0 ==> r[0] == '-' && IsDigits(r[1..])
    ensures i >= 0 ==> IsDigits(r)
  {
    if i < 0 then "-" + NatToString(-i) else NatToString(i)
  }

  // ---------------------------------------------------------------- split / join

  lemma {:induction false} SplitWhole(x: string, sep: string)
    requires |sep| > 0 && sep[0] !in x
    ensures SplitOn(x, sep) == [x]
    decreases |x|
  {
    if |x| >= |sep| {
      assert x[..|sep|][0] == x[0];
      SplitWhole(x[1..], sep);
      assert [x[0]] + x[1..] == x;
    }
  }

  lemma {:induction false} SplitPiece(x: string, sep: string, rest: string)
    requires |sep| > 0 && sep[0] !in x
    ensures SplitOn(x + sep + rest, sep) == [x] + SplitOn(rest, sep)
    decreases |x|
  {
    var s := x + sep + rest;
    if x == [] {
      assert s == sep + rest;
      assert s[..|sep|] == sep && s[|sep|..] == rest;
    } else {
      assert s[..|sep|][0] == x[0];
      assert s[1..] == x[1..] + sep + rest;
      SplitPiece(x[1..], sep, rest);
      assert [x[0]] + x[1..] == x;
    }
  }

  /** The pieces of `xs` then those of `ys`, the last of `xs` glued to the first of `ys`. */
  function Fuse(xs: seq<string>, ys: seq<string>): (r: seq<string>)
    requires |xs| >= 1 && |ys| >= 1
    ensures |r| == |xs| + |ys| - 1
  {
    xs[..|xs| - 1] + [xs[|xs| - 1] + ys[0]] + ys[1..]
  }

  lemma FuseAfterSep(xs: seq<string>, ys: seq<string>)
    requires |xs| >= 1 && |ys| >= 1
    ensures Fuse([""] + xs, ys) == [""] + Fuse(xs, ys)
  {
    assert ([""] + xs)[..|xs|] == [""] + xs[..|xs| - 1];
  }

  lemma FuseAfterChar(x: char, xs: seq<string>, ys: seq<string>)
    requires |xs| >= 1 && |ys| >= 1
    ensures Fuse([[x] + xs[0]] + xs[1..], ys) == [[x] + Fuse(xs, ys)[0]] + Fuse(xs, ys)[1..]
  {
    var r := Fuse(xs, ys);
    if |xs| == 1 {
      assert r == [xs[0] + ys[0]] + ys[1..];
      assert [x] + xs[0] + ys[0] == [x] + (xs[0] + ys[0]);
      assert ([[x] + xs[0]] + xs[1..])[..0] == [];
    } else {
      assert r[0] == xs[0];
      assert r[1..] == xs[1..|xs| - 1] + [xs[|xs| - 1] + ys[0]] + ys[1..];
    }
  }

  /** A one-character split of a concatenation: the piece that straddles the seam is
      the last piece of the left part joined to the first piece of the right part. */
  lemma {:induction false} SplitConcat(a: string, b: string, c: char)
    ensures SplitOn(a + b, [c]) == Fuse(SplitOn(a, [c]), SplitOn(b, [c]))
    decreases |a|
  {
    var B := SplitOn(b, [c]);
    if a == [] {
      assert a + b == b;
      assert SplitOn(a, [c]) == [""];
      assert "" + B[0] == B[0];
      assert [B[0]] + B[1..] == B;
    } else {
      var s := a + b;
      assert s[..1] == [a[0]] && a[..1] == [a[0]];
      assert s[1..] == a[1..] + b;
      SplitConcat(a[1..], b, c);
      var A' := SplitOn(a[1..], [c]);
      if a[0] == c {
        FuseAfterSep(A', B);
      } else {
        FuseAfterChar(a[0], A', B);
      }
    }
  }

  /** Appending text free of the separator extends the last piece. */
  lemma SplitAppendPiece(a: string, x: string, c: char)
    requires c !in x
    ensures SplitOn(a + x, [c]) == Fuse(SplitOn(a, [c]), [x])
  {
    SplitConcat(a, x, c);
    SplitWhole(x, [c]);
  }

  /** Appending the separator and then text free of it starts a new last piece. */
  lemma SplitAppendSep(a: string, x: string, c: char)
    requires c !in x
    ensures SplitOn(a + ([c] + x), [c]) == SplitOn(a, [c]) + [x]
  {
    var A := SplitOn(a, [c]);
    SplitConcat(a, [c] + x, c);
    assert [c] + x == [] + [c] + x;
    SplitPiece([], [c], x);
    SplitWhole(x, [c]);
    assert A[|A| - 1] + "" == A[|A| - 1];
    assert A[..|A| - 1] + [A[|A| - 1]] == A;
  }

  /** Appending the separator, a key and a value, neither holding the separator,
      adds one piece. */
  lemma SplitAppendField(a: string, key: string, x: string, c: char)
    requires c !in key && c !in x
    ensures SplitOn(a + ([c] + key) + x, [c]) == SplitOn(a, [c]) + [key + x]
  {
    var A := SplitOn(a, [c]);
    SplitAppendSep(a, key, c);
    SplitAppendPiece(a + ([c] + key), x, c);
    assert (A + [key])[..|A|] == A;
  }

  /** The separator, a key without it and a value add one plus the value's count. */
  lemma CountAppendField(a: string, key: string, x: string, c: char)
    requires c !in key
    ensures Count(a + ([c] + key) + x, c) == Count(a, c) + 1 + Count(x, c)
  {
    CountAbsent(key, c);
    CountConcat([c], key, c);
    CountConcat(a, [c] + key, c);
    CountConcat(a + ([c] + key), x, c);
  }

  /** Splitting a join gives the parts back, when no part contains the separator's
      first character. */
  lemma {:induction false} SplitJoin(xs: seq<string>, sep: string)
    requires |xs| >= 1 && |sep| > 0 && Free(sep[0], xs)
    ensures SplitOn(Join(sep, xs), sep) == xs
  {
    if |xs| == 1 {
      SplitWhole(xs[0], sep);
    } else {
      SplitPiece(xs[0], sep, Join(sep, xs[1..]));
      SplitJoin(xs[1..], sep);
      assert [xs[0]] + xs[1..] == xs;
    }
  }

  /** Joining the pieces of a split gives the string back, whatever it holds. */
  lemma {:induction false} JoinSplit(s: string, sep: string)
    requires |sep| > 0
    ensures Join(sep, SplitOn(s, sep)) == s
    decreases |s|
  {
    if |s| < |sep| {
    } else if s[..|sep|] == sep {
      JoinSplit(s[|sep|..], sep);
      JoinAfterEmpty(sep, SplitOn(s[|sep|..], sep));
      assert s == sep + s[|sep|..];
    } else {
      JoinSplit(s[1..], sep);
      JoinAfterChar(sep, s[0], SplitOn(s[1..], sep));
      assert s == [s[0]] + s[1..];
    }
  }

  lemma JoinAfterEmpty(sep: string, xs: seq<string>)
    requires |xs| >= 1
    ensures Join(sep, [""] + xs) == sep + Join(sep, xs)
  {
    assert ([""] + xs)[1..] == xs;
  }

  lemma JoinAfterChar(sep: string, x: char, xs: seq<string>)
    requires |xs| >= 1
    ensures Join(sep, [[x] + xs[0]] + xs[1..]) == [x] + Join(sep, xs)
  {
    var ys := [[x] + xs[0]] + xs[1..];
    if |xs| > 1 {
      assert ys[1..] == xs[1..];
      assert Join(sep, ys) == [x] + xs[0] + sep + Join(sep, xs[1..]);
    }
  }

  /** A one-character split has one more piece than there are separators. */
  lemma {:induction false} SplitCount(s: string, c: char)
    ensures |SplitOn(s, [c])| == Count(s, c) + 1
    decreases |s|
  {
    if |s| >= 1 {
      SplitCount(s[1..], c);
      if s[..1] == [c] {
        assert s[0] == c && s[1..] == s[|[c]|..];
      } else {
        assert s[0] != c;
      }
    }
  }

  /** No piece of a one-character split contains the separator. */
  lemma {:induction false} SplitPiecesFree(s: string, c: char)
    ensures Free(c, SplitOn(s, [c]))
    decreases |s|
  {
    if |s| >= 1 {
      SplitPiecesFree(s[1..], c);
      var rest := SplitOn(s[1..], [c]);
      if s[..1] != [c] {
        assert s[0] != c;
        assert forall i :: 1 <= i < |rest| ==> rest[i] == rest[1..][i - 1];
      }
    }
  }

  /** A character absent from the text is absent from every piece of it. */
  lemma {:induction false} SplitPiecesInherit(s: string, sep: string, c: char)
    requires |sep| > 0 && c !in s
    ensures Free(c, SplitOn(s, sep))
    decreases |s|
  {
    if |s| >= |sep| {
      if s[..|sep|] == sep {
        assert c !in s[|sep|..];
        SplitPiecesInherit(s[|sep|..], sep, c);
      } else {
        assert c !in s[1..];
        SplitPiecesInherit(s[1..], sep, c);
        var rest := SplitOn(s[1..], sep);
        assert forall i :: 1 <= i < |rest| ==> rest[i] == rest[1..][i - 1];
      }
    }
  }

  // ---------------------------------------------------------------- counting

  lemma {:induction false} CountConcat(a: string, b: string, c: char)
    ensures Count(a + b, c) == Count(a, c) + Count(b, c)
    decreases |a|
  {
    if a != [] {
      var s := a + b;
      assert s != [] && s[0] == a[0] && s[1..] == a[1..] + b;
      CountConcat(a[1..], b, c);
      assert Count(s, c) == (if a[0] == c then 1 else 0) + Count(a[1..] + b, c);
    } else {
      assert a + b == b;
    }
  }

  lemma {:induction false} CountAbsent(s: string, c: char)
    requires c !in s
    ensures Count(s, c) == 0
    decreases |s|
  {
    if s != [] {
      CountAbsent(s[1..], c);
    }
  }

  lemma {:induction false} JoinFree(sep: string, xs: seq<string>, c: char)
    requires c !in sep && Free(c, xs)
    ensures c !in Join(sep, xs)
    decreases |xs|
  {
    if |xs| > 1 {
      JoinFree(sep, xs[1..], c);
    }
  }

  /** `n` one-character strings `[c]` joined by a separator free of `c` hold `c`
      exactly `n` times. */
  lemma {:induction false} CountJoinRepeat(sep: string, c: char, n: nat)
    requires c !in sep
    ensures Count(Join(sep, Repeat([c], n)), c) == n
  {
    if n == 1 {
      assert Join(sep, Repeat([c], 1)) == [c];
    } else if n > 1 {
      assert Repeat([c], n)[1..] == Repeat([c], n - 1);
      CountJoinRepeat(sep, c, n - 1);
      CountConcat([c], sep, c);
      CountConcat([c] + sep, Join(sep, Repeat([c], n - 1)), c);
      CountAbsent(sep, c);
    }
  }

  // ---------------------------------------------------------------- replace

  /** Nothing to replace: the text is returned unchanged. */
  lemma {:induction false} ReplaceAbsent(s: string, pat: string, r: string)
    requires |pat| > 0 && pat[0] !in s
    ensures ReplaceAll(s, pat, r) == s
    decreases |s|
  {
    if |s| >= |pat| {
      assert s[..|pat|][0] == s[0];
      ReplaceAbsent(s[1..], pat, r);
      assert [s[0]] + s[1..] == s;
    }
  }

  /** Replacing a character by text without it leaves none of it. */
  lemma {:induction false} ReplaceRemoves(s: string, c: char, r: string)
    requires c !in r
    ensures c !in ReplaceAll(s, [c], r)
    decreases |s|
  {
    if |s| >= 1 {
      ReplaceRemoves(s[1..], c, r);
      if s[..1] == [c] {
        assert s[1..] == s[|[c]|..];
      } else {
        assert s[0] != c;
      }
    }
  }

  /** A character in neither the text nor the replacement is not in the result. */
  lemma {:induction false} ReplaceKeepsOut(s: string, pat: string, r: string, c: char)
    requires |pat| > 0 && c !in s && c !in r
    ensures c !in ReplaceAll(s, pat, r)
    decreases |s|
  {
    if |s| >= |pat| {
      if s[..|pat|] == pat {
        assert c !in s[|pat|..];
        ReplaceKeepsOut(s[|pat|..], pat, r, c);
      } else {
        assert c !in s[1..];
        ReplaceKeepsOut(s[1..], pat, r, c);
      }
    }
  }

  /** `ReplaceAbsent` as an implication, for use inside function bodies. */
  lemma ReplaceIdle(s: string, pat: string, r: string)
    requires |pat| > 0
    ensures pat[0] !in s ==> ReplaceAll(s, pat, r) == s
  {
    if pat[0] !in s {
      ReplaceAbsent(s, pat, r);
    }
  }

  /** A prefix in which no occurrence can start is copied through. */
  lemma {:induction false} ReplaceSkip(x: string, y: string, pat: string, r: string)
    requires |pat| > 0 && pat[0] !in x
    ensures ReplaceAll(x + y, pat, r) == x + ReplaceAll(y, pat, r)
    decreases |x|
  {
    if x != [] {
      var s := x + y;
      if |s| >= |pat| {
        assert s[..|pat|][0] == x[0];
        assert s[1..] == x[1..] + y;
        ReplaceSkip(x[1..], y, pat, r);
      } else {
        assert ReplaceAll(s, pat, r) == s && ReplaceAll(y, pat, r) == y;
      }
    } else {
      assert x + y == y;
    }
  }

  /** A prefix shorter than the pattern, followed by a character the pattern does
      not contain, holds no occurrence and is copied through. */
  lemma {:induction false} ReplaceShortPrefix(x: string, y: string, pat: string, r: string)
    requires 0 < |x| < |pat|
    requires y == [] || y[0] !in pat
    ensures ReplaceAll(x + y, pat, r) == x + ReplaceAll(y, pat, r)
    decreases |x|
  {
    var s := x + y;
    if |s| < |pat| {
      assert ReplaceAll(s, pat, r) == s && ReplaceAll(y, pat, r) == y;
    } else {
      assert s[|x|] == y[0] && pat[|x|] in pat;
      assert s[..|pat|] != pat;
      assert s[1..] == x[1..] + y;
      if |x| > 1 {
        ReplaceShortPrefix(x[1..], y, pat, r);
      }
    }
  }

  /** `replace` distributes over a concatenation when no occurrence can straddle
      the seam: the pattern is one character, or the right part starts with a
      character the pattern does not contain. */
  lemma {:induction false} ReplaceConcat(x: string, y: string, pat: string, r: string)
    requires |pat| > 0
    requires |pat| == 1 || y == [] || y[0] !in pat
    ensures ReplaceAll(x + y, pat, r) == ReplaceAll(x, pat, r) + ReplaceAll(y, pat, r)
    decreases |x|
  {
    var s := x + y;
    if x == [] {
      assert s == y;
    } else if |x| < |pat| {
      ReplaceShortPrefix(x, y, pat, r);
    } else if x[..|pat|] == pat {
      ReplaceConcat(x[|pat|..], y, pat, r);
      ReplaceConcatMatch(x, y, pat, r);
    } else {
      ReplaceConcat(x[1..], y, pat, r);
      ReplaceConcatSkip(x, y, pat, r);
    }
  }

  lemma ReplaceConcatMatch(x: string, y: string, pat: string, r: string)
    requires 0 < |pat| <= |x| && x[..|pat|] == pat
    requires ReplaceAll(x[|pat|..] + y, pat, r) == ReplaceAll(x[|pat|..], pat, r) + ReplaceAll(y, pat, r)
    ensures ReplaceAll(x + y, pat, r) == ReplaceAll(x, pat, r) + ReplaceAll(y, pat, r)
  {
    var s := x + y;
    assert s[..|pat|] == pat;
    assert s[|pat|..] == x[|pat|..] + y;
    var a, b := ReplaceAll(x[|pat|..], pat, r), ReplaceAll(y, pat, r);
    assert r + (a + b) == (r + a) + b;
  }

  lemma ReplaceConcatSkip(x: string, y: string, pat: string, r: string)
    requires 0 < |pat| <= |x| && x[..|pat|] != pat
    requires ReplaceAll(x[1..] + y, pat, r) == ReplaceAll(x[1..], pat, r) + ReplaceAll(y, pat, r)
    ensures ReplaceAll(x + y, pat, r) == ReplaceAll(x, pat, r) + ReplaceAll(y, pat, r)
  {
    var s := x + y;
    assert s[..|pat|] == x[..|pat|];
    assert s[1..] == x[1..] + y;
    var a, b := ReplaceAll(x[1..], pat, r), ReplaceAll(y, pat, r);
    assert [x[0]] + (a + b) == ([x[0]] + a) + b;
  }

  /** A string whose only possible match starts at its first character: it is
      rewritten at the front if the pattern is a prefix, and left alone otherwise. */
  lemma {:induction false} ReplaceHead(s: string, pat: string, r: string)
    requires |pat| > 0 && |s| >= 1 && pat[0] !in s[1..]
    ensures ReplaceAll(s, pat, r) == if pat <= s then r + s[|pat|..] else s
  {
    if |s| < |pat| {
    } else if s[..|pat|] == pat {
      assert pat <= s;
      ReplaceAbsent(s[|pat|..], pat, r);
    } else {
      assert !(pat <= s);
      ReplaceAbsent(s[1..], pat, r);
      assert [s[0]] + s[1..] == s;
    }
  }

  /** `replace` on a join acts on each part separately, when the pattern and the
      separator cannot overlap. */
  lemma {:induction false} ReplaceJoin(sep: string, ts: seq<string>, pat: string, r: string)
    requires |pat| > 0 && |sep| > 0 && sep[0] !in pat && pat[0] !in sep
    ensures ReplaceAll(Join(sep, ts), pat, r) == Join(sep, ReplaceEach(ts, pat, r))
    decreases |ts|
  {
    if |ts| > 1 {
      var rest := Join(sep, ts[1..]);
      var R := ReplaceEach(ts, pat, r);
      JoinCons(sep, ts);
      ReplaceConcat(ts[0], sep + rest, pat, r);
      ReplaceSkip(sep, rest, pat, r);
      ReplaceJoin(sep, ts[1..], pat, r);
      assert R[1..] == ReplaceEach(ts[1..], pat, r);
      JoinCons(sep, R);
    }
  }

  lemma JoinCons(sep: string, xs: seq<string>)
    requires |xs| > 1
    ensures Join(sep, xs) == xs[0] + (sep + Join(sep, xs[1..]))
  {
    assert xs[0] + sep + Join(sep, xs[1..]) == xs[0] + (sep + Join(sep, xs[1..]));
  }

  /** Replacing a one-character pattern is the same as splitting on it and joining
      with the replacement. */
  lemma {:induction false} ReplaceIsSplitJoin(s: string, c: char, r: string)
    ensures ReplaceAll(s, [c], r) == Join(r, SplitOn(s, [c]))
    decreases |s|
  {
    if |s| >= 1 {
      ReplaceIsSplitJoin(s[1..], c, r);
      var rest := SplitOn(s[1..], [c]);
      if s[..1] == [c] {
        assert s[1..] == s[|[c]|..];
        JoinAfterEmpty(r, rest);
      } else {
        JoinAfterChar(r, s[0], rest);
      }
    }
  }

  // ---------------------------------------------------------------- decimal text

  /** `str(n)` has no leading zero. */
  lemma {:induction false} NoLeadingZero(n: nat)
    requires n >= 1
    ensures NatToString(n)[0] != '0'
  {
    if n >= 10 {
      NoLeadingZero(n / 10);
      assert NatToString(n)[0] == NatToString(n / 10)[0];
    }
  }

  /** Decimal text is prefix-ordered like the numbers: if `str(k)` is a prefix of
      `str(j)` then `k <= j`, with equality when the lengths agree. */
  lemma {:induction false} DigitsPrefix(k: nat, j: nat)
    requires NatToString(k) <= NatToString(j)
    ensures k <= j
    ensures |NatToString(k)| == |NatToString(j)| ==> k == j
    decreases j
  {
    var dk, dj := NatToString(k), NatToString(j);
    if j < 10 {
      assert |dk| == 1 && dk[0] == dj[0];
    } else {
      var dh := NatToString(j / 10);
      assert dj == dh + [DigitChar(j % 10)];
      if |dk| < |dj| {
        assert dk <= dh;
        DigitsPrefix(k, j / 10);
      } else {
        assert dk == dj;
        assert k >= 10;
        var kh := NatToString(k / 10);
        assert dk == kh + [DigitChar(k % 10)];
        assert kh == dk[..|dk| - 1] == dh;
        DigitsPrefix(k / 10, j / 10);
        assert DigitChar(k % 10) == dk[|dk| - 1] == DigitChar(j % 10);
      }
    }
  }
}
