/** The few built-in Python string operations the blog relies on:
    str.strip(), str.split(sep), sep.join(parts), str.replace(old, new)
    (re.sub on a pattern without metacharacters behaves the same). */
module Text {

  /** Python's str.isspace() for a single character: the ASCII controls
      TAB..CR and FS..US, SPACE, NEL, NO-BREAK SPACE, and the Unicode
      space separators and line/paragraph separators. */
  predicate IsSpace(c: char) {
    || ('\t' <= c <= '\r')
    || ('\U{1C}' <= c <= ' ')
    || c == '\U{85}' || c == '\U{A0}' || c == '\U{1680}'
    || ('\U{2000}' <= c <= '\U{200A}')
    || c == '\U{2028}' || c == '\U{2029}' || c == '\U{202F}'
    || c == '\U{205F}' || c == '\U{3000}'
  }

  predicate AllSpace(s: string) {
    forall i :: 0 <= i < |s| ==> IsSpace(s[i])
  }

  /** No white space at either end: what str.strip() leaves behind. */
  predicate Trimmed(s: string) {
    s == [] || (!IsSpace(s[0]) && !IsSpace(s[|s| - 1]))
  }

  /** str.lstrip(): drops the longest white-space prefix. */
  function StripLeft(s: string): (r: string)
    ensures |r| <= |s| && r == s[|s| - |r|..]
    ensures AllSpace(s[..|s| - |r|])
    ensures r == [] || !IsSpace(r[0])
  {
    if s != [] && IsSpace(s[0]) then
      var r := StripLeft(s[1..]);
      assert s[..|s| - |r|] == [s[0]] + s[1..][..|s| - 1 - |r|];
      r
    else s
  }

  /** str.rstrip(): drops the longest white-space suffix. */
  function StripRight(s: string): (r: string)
    ensures |r| <= |s| && r == s[..|r|]
    ensures AllSpace(s[|r|..])
    ensures r == [] || !IsSpace(r[|r| - 1])
  {
    if s != [] && IsSpace(s[|s| - 1]) then
      var r := StripRight(s[..|s| - 1]);
      assert s[|r|..] == s[..|s| - 1][|r|..] + [s[|s| - 1]];
      r
    else s
  }

  /** str.strip(). */
  function Strip(s: string): (r: string)
    ensures Trimmed(r)
    ensures |r| <= |s|
  {
    StripRight(StripLeft(s))
  }

  lemma {:induction false} StripLeftOf(a: string, t: string)
    requires AllSpace(a)
    requires t == [] || !IsSpace(t[0])
    ensures StripLeft(a + t) == t
  {
    if a != [] {
      assert (a + t)[1..] == a[1..] + t;
      StripLeftOf(a[1..], t);
    }
  }

  lemma {:induction false} StripRightOf(t: string, b: string)
    requires AllSpace(b)
    requires t == [] || !IsSpace(t[|t| - 1])
    ensures StripRight(t + b) == t
  {
    if b != [] {
      assert (t + b)[..|t + b| - 1] == t + b[..|b| - 1];
      StripRightOf(t, b[..|b| - 1]);
    }
  }

  /** The stripped string is exactly the trimmed core between a white-space
      prefix and a white-space suffix, whatever those are. */
  lemma StripExact(a: string, t: string, b: string)
    requires AllSpace(a) && AllSpace(b) && Trimmed(t)
    ensures Strip(a + t + b) == t
  {
    assert a + t + b == a + (t + b);
    if t == [] {
      assert AllSpace(a + b);
      StripLeftOf(a + b, []);
      assert a + b == a + b + [];
    } else {
      StripLeftOf(a, t + b);
      StripRightOf(t, b);
    }
  }

  /** str.strip() only removes white space, and only at the ends:
      a and b are the white space it removed. */
  lemma StripSplits(s: string) returns (a: string, b: string)
    ensures AllSpace(a) && AllSpace(b)
    ensures s == a + Strip(s) + b
  {
    var l := StripLeft(s);
    var r := StripRight(l);
    a, b := s[..|s| - |l|], l[|r|..];
    assert AllSpace(a) && AllSpace(b);
    Reassemble(s, l, r);
  }

  lemma Reassemble(s: string, l: string, r: string)
    requires |l| <= |s| && l == s[|s| - |l|..]
    requires |r| <= |l| && r == l[..|r|]
    ensures s == s[..|s| - |l|] + r + l[|r|..]
  {
    SplitAt(s, |s| - |l|);
    SplitAt(l, |r|);
  }

  lemma SplitAt(s: string, k: nat)
    requires k <= |s|
    ensures s == s[..k] + s[k..]
  {
  }

  /** Surrounding white space makes no difference to str.strip(). */
  lemma StripIgnoresPadding(a: string, s: string, b: string)
    requires AllSpace(a) && AllSpace(b)
    ensures Strip(a + s + b) == Strip(s)
  {
    var t := Strip(s);
    var a', b' := StripSplits(s);
    SpaceConcat(a, a');
    SpaceConcat(b', b);
    Regroup(a, a', t, b', b);
    StripExact(a + a', t, b' + b);
  }

  lemma SpaceConcat(x: string, y: string)
    requires AllSpace(x) && AllSpace(y)
    ensures AllSpace(x + y)
  {
  }

  lemma Regroup(a: string, a': string, t: string, b': string, b: string)
    ensures a + (a' + t + b') + b == (a + a') + t + (b' + b)
  {
  }

  lemma StripIdempotent(s: string)
    ensures Strip(Strip(s)) == Strip(s)
  {
    var t := Strip(s);
    assert StripLeft(t) == t;
    assert StripRight(t) == t;
  }

  /** s.replace(pat, rep) (and re.sub(pat, rep, s) for a literal pattern):
      every leftmost, non-overlapping occurrence of pat, scanning left to
      right, is replaced by rep. */
  function Replace(s: string, pat: string, rep: string): (r: string)
    requires pat != []
    ensures |rep| >= |pat| ==> |r| >= |s|
    ensures |rep| <= |pat| ==> |r| <= |s|
    decreases |s|
  {
    if s == [] then []
    else if pat <= s then rep + Replace(s[|pat|..], pat, rep)
    else [s[0]] + Replace(s[1..], pat, rep)
  }

  /** s.split(sep): the pieces between leftmost, non-overlapping
      occurrences of sep; there is always at least one piece. */
  function SplitOn(s: string, sep: string): (r: seq<string>)
    requires sep != []
    ensures |r| >= 1
    decreases |s|
  {
    if s == [] then [[]]
    else if sep <= s then [[]] + SplitOn(s[|sep|..], sep)
    else
      var t := SplitOn(s[1..], sep);
      [[s[0]] + t[0]] + t[1..]
  }

  /** sep.join(parts): starts with the first part. */
  function Join(parts: seq<string>, sep: string): (r: string)
    ensures |parts| >= 1 ==> parts[0] <= r
  {
    if parts == [] then []
    else if |parts| == 1 then parts[0]
    else parts[0] + sep + Join(parts[1..], sep)
  }

  function CountChar(s: string, c: char): nat
  {
    if s == [] then 0 else (if s[0] == c then 1 else 0) + CountChar(s[1..], c)
  }

  /** Where the pattern does not match, the first character is kept. */
  lemma ReplaceNoMatchHead(s: string, pat: string, rep: string)
    requires pat != [] && s != [] && !(pat <= s)
    ensures Replace(s, pat, rep) == [s[0]] + Replace(s[1..], pat, rep)
  {
  }

  /** A prefix that cannot begin a match passes through unchanged. */
  lemma {:induction false} ReplaceSkips(x: string, y: string, pat: string, rep: string)
    requires pat != [] && pat[0] !in x
    ensures Replace(x + y, pat, rep) == x + Replace(y, pat, rep)
  {
    if x == [] {
      assert x + y == y;
    } else {
      assert (x + y)[1..] == x[1..] + y;
      assert !(pat <= x + y) by { assert (x + y)[0] == x[0] && x[0] in x; }
      assert pat[0] !in x[1..];
      ReplaceSkips(x[1..], y, pat, rep);
      assert x == [x[0]] + x[1..];
    }
  }

  /** A string in which the pattern's first character never occurs is left
      as it is. */
  lemma ReplaceAbsent(s: string, pat: string, rep: string)
    requires pat != []
    ensures pat[0] !in s ==> Replace(s, pat, rep) == s
  {
    if pat[0] !in s {
      assert s + [] == s;
      ReplaceSkips(s, [], pat, rep);
    }
  }

  /** Replacing a single character commutes with concatenation. */
  lemma {:induction false} ReplaceCharConcat(x: string, y: string, c: char, rep: string)
    ensures Replace(x + y, [c], rep) == Replace(x, [c], rep) + Replace(y, [c], rep)
  {
    if x == [] {
      assert x + y == y;
    } else {
      var s := x + y;
      assert s[0] == x[0] && s[1..] == x[1..] + y;
      ReplaceCharConcat(x[1..], y, c, rep);
      if x[0] == c {
        ReplaceCharHead(s, c, rep);
        ReplaceCharHead(x, c, rep);
      } else {
        assert !([c] <= s) && !([c] <= x);
        ReplaceNoMatchHead(s, [c], rep);
        ReplaceNoMatchHead(x, [c], rep);
      }
    }
  }

  lemma ReplaceCharHead(s: string, c: char, rep: string)
    requires s != [] && s[0] == c
    ensures Replace(s, [c], rep) == rep + Replace(s[1..], [c], rep)
  {
    assert [c] <= s;
    assert s[|[c]|..] == s[1..];
  }

  /** s.replace(pat, rep) == rep.join(s.split(pat)). */
  lemma {:induction false} ReplaceViaSplit(s: string, pat: string, rep: string)
    requires pat != []
    ensures Replace(s, pat, rep) == Join(SplitOn(s, pat), rep)
    decreases |s|
  {
    if s == [] {
    } else if pat <= s {
      ReplaceViaSplit(s[|pat|..], pat, rep);
      JoinCons([], SplitOn(s[|pat|..], pat), rep);
    } else {
      ReplaceViaSplit(s[1..], pat, rep);
      JoinExtendHead(s[0], SplitOn(s[1..], pat), rep);
    }
  }

  lemma JoinCons(x: string, t: seq<string>, sep: string)
    requires |t| >= 1
    ensures Join([x] + t, sep) == x + sep + Join(t, sep)
  {
    assert ([x] + t)[1..] == t;
  }

  lemma JoinExtendHead(c: char, t: seq<string>, sep: string)
    requires |t| >= 1
    ensures Join([[c] + t[0]] + t[1..], sep) == [c] + Join(t, sep)
  {
    var u := [[c] + t[0]] + t[1..];
    if |t| == 1 {
      assert u == [[c] + t[0]];
    } else {
      assert u[1..] == t[1..];
      assert Join(u, sep) == [c] + t[0] + sep + Join(t[1..], sep);
    }
  }

  lemma {:induction false} ReplaceSelf(s: string, pat: string)
    requires pat != []
    ensures Replace(s, pat, pat) == s
    decreases |s|
  {
    if s == [] {
    } else if pat <= s {
      ReplaceSelf(s[|pat|..], pat);
      assert s == pat + s[|pat|..];
    } else {
      ReplaceSelf(s[1..], pat);
      assert s == [s[0]] + s[1..];
    }
  }

  /** Joining the pieces of s.split(sep) with sep gives s back. */
  lemma JoinSplit(s: string, sep: string)
    requires sep != []
    ensures Join(SplitOn(s, sep), sep) == s
  {
    ReplaceViaSplit(s, sep, sep);
    ReplaceSelf(s, sep);
  }

  /** Splitting on one character gives one piece more than there are
      occurrences of it, and no piece contains it. */
  lemma {:induction false} SplitCharShape(s: string, c: char)
    ensures |SplitOn(s, [c])| == CountChar(s, c) + 1
    ensures forall k :: 0 <= k < |SplitOn(s, [c])| ==> c !in SplitOn(s, [c])[k]
  {
    if s != [] {
      SplitCharShape(s[1..], c);
      if [c] <= s {
        assert s[0] == c;
        assert s[|[c]|..] == s[1..];
      } else {
        assert s[0] != c;
      }
    }
  }

  lemma {:induction false} SplitFirstPiece(x: string, y: string, c: char)
    requires c !in x
    ensures SplitOn(x + [c] + y, [c]) == [x] + SplitOn(y, [c])
  {
    if x == [] {
      assert [c] + y == x + [c] + y;
      assert ([c] + y)[1..] == y;
    } else {
      var s := x + [c] + y;
      assert s[0] == x[0] && s[0] != c;
      assert s[1..] == x[1..] + [c] + y;
      SplitFirstPiece(x[1..], y, c);
      assert [x[0]] + x[1..] == x;
    }
  }

  /** Splitting a join of pieces that do not contain the separator gives
      the pieces back. */
  lemma {:induction false} SplitJoin(parts: seq<string>, c: char)
    requires |parts| >= 1
    requires forall k :: 0 <= k < |parts| ==> c !in parts[k]
    ensures SplitOn(Join(parts, [c]), [c]) == parts
  {
    if |parts| == 1 {
      var p := parts[0];
      assert p + [] == p;
      ReplaceAbsent(p, [c], [c]);
      SplitCharShape(p, c);
      SplitNoSep(p, c);
    } else {
      SplitJoin(parts[1..], c);
      SplitFirstPiece(parts[0], Join(parts[1..], [c]), c);
    }
  }

  lemma {:induction false} SplitNoSep(s: string, c: char)
    requires c !in s
    ensures SplitOn(s, [c]) == [s]
  {
    if s != [] {
      SplitNoSep(s[1..], c);
      assert !([c] <= s) by { assert s[0] != c; }
      assert [s[0]] + s[1..] == s;
    }
  }
}
