/**
  The handful of Python string operations the extractor relies on:
  `str.isspace`, `strip`, `rstrip`, `split()` (no separator), `' '.join`,
  `startswith` and the `in` substring test.
 */
module PyStr {
  import opened Filters

  /** The characters Python's `str.isspace()` accepts: TAB, LF, VT, FF, CR,
      the separators FS..US, SPACE, NEL, NBSP and the Unicode space and
      line/paragraph separators. */
  const PySpaces: set<char> := {
    '\t', '\n', '\U{b}', '\U{c}', '\r',
    '\U{1c}', '\U{1d}', '\U{1e}', '\U{1f}',
    ' ', '\U{85}', '\U{a0}', '\U{1680}',
    '\U{2000}', '\U{2001}', '\U{2002}', '\U{2003}', '\U{2004}', '\U{2005}',
    '\U{2006}', '\U{2007}', '\U{2008}', '\U{2009}', '\U{200a}',
    '\U{2028}', '\U{2029}', '\U{202f}', '\U{205f}', '\U{3000}'
  }

  predicate IsSpace(c: char)
  {
    c in PySpaces
  }

  predicate AllSpace(s: string)
  {
    forall i :: 0 <= i < |s| ==> IsSpace(s[i])
  }

  /** A token `split()` can produce: non-empty, no whitespace inside. */
  predicate IsWord(w: string)
  {
    |w| > 0 && forall i :: 0 <= i < |w| ==> !IsSpace(w[i])
  }

  predicate StartsWith(s: string, prefix: string)
  {
    |prefix| <= |s| && s[..|prefix|] == prefix
  }

  /** Python's `sub in s`. */
  predicate Contains(s: string, sub: string)
    decreases |s|
  {
    StartsWith(s, sub) || (|s| > 0 && Contains(s[1..], sub))
  }

  /** Length of `s` once trailing whitespace is dropped. */
  function RStripLen(s: string): (k: nat)
    ensures k <= |s|
    decreases |s|
  {
    if |s| > 0 && IsSpace(s[|s| - 1]) then RStripLen(s[..|s| - 1]) else |s|
  }

  /** Number of leading whitespace characters of `s`. */
  function LStripLen(s: string): (k: nat)
    ensures k <= |s|
    decreases |s|
  {
    if |s| > 0 && IsSpace(s[0]) then 1 + LStripLen(s[1..]) else 0
  }

  lemma {:induction false} RStripLenSpec(s: string)
    ensures forall i :: RStripLen(s) <= i < |s| ==> IsSpace(s[i])
    ensures RStripLen(s) == 0 || !IsSpace(s[RStripLen(s) - 1])
    decreases |s|
  {
    if |s| > 0 && IsSpace(s[|s| - 1]) {
      RStripLenSpec(s[..|s| - 1]);
    }
  }

  lemma {:induction false} LStripLenSpec(s: string)
    ensures forall i :: 0 <= i < LStripLen(s) ==> IsSpace(s[i])
    ensures LStripLen(s) == |s| || !IsSpace(s[LStripLen(s)])
    decreases |s|
  {
    if |s| > 0 && IsSpace(s[0]) {
      LStripLenSpec(s[1..]);
      assert forall i :: 1 <= i < LStripLen(s) ==> s[i] == s[1..][i - 1];
    }
  }

  /** `s.rstrip()`: the longest prefix of `s` not ending in whitespace. */
  function RStrip(s: string): (r: string)
    ensures |r| <= |s| && r == s[..|r|]
    ensures r == [] || !IsSpace(r[|r| - 1])
    ensures forall i :: |r| <= i < |s| ==> IsSpace(s[i])
  {
    RStripLenSpec(s);
    s[..RStripLen(s)]
  }

  /** `s.lstrip()`: the longest suffix of `s` not starting with whitespace. */
  function LStrip(s: string): (r: string)
    ensures |r| <= |s| && r == s[|s| - |r|..]
    ensures r == [] || !IsSpace(r[0])
    ensures forall i :: 0 <= i < |s| - |r| ==> IsSpace(s[i])
  {
    LStripLenSpec(s);
    s[LStripLen(s)..]
  }

  /** `s.strip()`: `s` with whitespace removed from both ends. */
  function Strip(s: string): (r: string)
    ensures exists a :: TrimmedAt(s, r, a)
    ensures r == [] || (!IsSpace(r[0]) && !IsSpace(r[|r| - 1]))
  {
    var t := LStrip(s);
    var r := RStrip(t);
    StripWitness(s, t, r);
    r
  }

  /** `r` is `s[a..a + |r|]` and everything of `s` around it is whitespace. */
  ghost predicate TrimmedAt(s: string, r: string, a: int)
  {
    && 0 <= a <= |s| - |r|
    && r == s[a..a + |r|]
    && (forall i :: 0 <= i < a ==> IsSpace(s[i]))
    && (forall i :: a + |r| <= i < |s| ==> IsSpace(s[i]))
  }

  lemma StripWitness(s: string, t: string, r: string)
    requires t == LStrip(s) && r == RStrip(t)
    ensures TrimmedAt(s, r, |s| - |t|)
    ensures r == [] || (!IsSpace(r[0]) && !IsSpace(r[|r| - 1]))
  {
    var a := |s| - |t|;
    assert t == s[a..];
    assert r == t[..|r|];
    assert r == s[a..a + |r|];
    forall i | a + |r| <= i < |s|
      ensures IsSpace(s[i])
    {
      assert s[i] == t[i - a];
    }
    if r != [] {
      assert r[0] == t[0];
    }
  }

  /** Index of the first whitespace character of `t`, or `|t|` if none. */
  function WordEnd(t: string): (k: nat)
    ensures k <= |t|
    ensures forall i :: 0 <= i < k ==> !IsSpace(t[i])
    ensures k < |t| ==> IsSpace(t[k])
  {
    if |t| == 0 || IsSpace(t[0]) then 0 else 1 + WordEnd(t[1..])
  }

  /** `s.split()`: the maximal runs of non-whitespace characters, in order. */
  function Split(s: string): (r: seq<string>)
    ensures forall k :: 0 <= k < |r| ==> IsWord(r[k])
    decreases |s|
  {
    var t := LStrip(s);
    if |t| == 0 then []
    else
      var k := WordEnd(t);
      [t[..k]] + Split(t[k..])
  }

  /** `' '.join(ws)`. */
  function JoinSpace(ws: seq<string>): string
  {
    if |ws| == 0 then ""
    else if |ws| == 1 then ws[0]
    else ws[0] + " " + JoinSpace(ws[1..])
  }

  lemma LStripOfWordStart(s: string)
    requires |s| > 0 && !IsSpace(s[0])
    ensures LStrip(s) == s
  {
  }

  lemma {:induction false} WordEndOfWord(w: string, rest: string)
    requires IsWord(w)
    requires rest == [] || IsSpace(rest[0])
    ensures WordEnd(w + rest) == |w|
    decreases |w|
  {
    if |w| > 1 {
      assert (w + rest)[1..] == w[1..] + rest;
      WordEndOfWord(w[1..], rest);
    } else {
      assert (w + rest)[1..] == rest;
    }
  }

  /** Joining well-formed tokens with single spaces and splitting again gives
      the tokens back. */
  lemma {:induction false} SplitJoinSpace(ws: seq<string>)
    requires forall k :: 0 <= k < |ws| ==> IsWord(ws[k])
    ensures Split(JoinSpace(ws)) == ws
  {
    if |ws| == 0 {
    } else if |ws| == 1 {
      var w := ws[0];
      LStripOfWordStart(w);
      WordEndOfWord(w, []);
      assert w + [] == w;
      assert w[|w|..] == [];
    } else {
      var w := ws[0];
      var rest := JoinSpace(ws[1..]);
      var s := w + " " + rest;
      assert s == w + (" " + rest);
      assert s[0] == w[0];
      LStripOfWordStart(s);
      WordEndOfWord(w, " " + rest);
      assert s[..|w|] == w;
      assert s[|w|..] == " " + rest;
      SplitJoinSpace(ws[1..]);
      JoinOfWordsStartsWithWord(ws[1..]);
      assert (" " + rest)[1..] == rest;
      LStripOfWordStart(rest);
      assert LStrip(" " + rest) == rest;
    }
  }

  lemma JoinOfWordsStartsWithWord(ws: seq<string>)
    requires |ws| > 0
    requires forall k :: 0 <= k < |ws| ==> IsWord(ws[k])
    ensures |ws[0]| > 0 && |JoinSpace(ws)| > 0 && JoinSpace(ws)[0] == ws[0][0]
  {
    assert IsWord(ws[0]);
    if |ws| > 1 {
      assert JoinSpace(ws) == ws[0] + (" " + JoinSpace(ws[1..]));
    }
  }

  /** When `split()` finds exactly one token, that token is `strip()`. */
  lemma SingleTokenIsStrip(s: string)
    requires |Split(s)| == 1
    ensures Split(s)[0] == Strip(s)
  {
    var t := LStrip(s);
    var k := WordEnd(t);
    assert Split(t[k..]) == [];
    assert LStrip(t[k..]) == [];
    RStripTrailingSpace(t[..k], t[k..]);
    assert t[..k] + t[k..] == t;
  }

  lemma {:induction false} RStripTrailingSpace(a: string, b: string)
    requires |a| > 0 && !IsSpace(a[|a| - 1])
    requires LStrip(b) == []
    ensures RStrip(a + b) == a
    decreases |b|
  {
    if |b| == 0 {
      assert a + b == a;
    } else {
      assert IsSpace(b[|b| - 1]);
      assert (a + b)[..|a + b| - 1] == a + b[..|b| - 1];
      assert LStrip(b[..|b| - 1]) == [] by {
        assert AllSpace(b);
        AllSpaceLStrip(b[..|b| - 1]);
      }
      RStripTrailingSpace(a, b[..|b| - 1]);
    }
  }

  lemma AllSpaceLStrip(s: string)
    requires AllSpace(s)
    ensures LStrip(s) == []
    decreases |s|
  {
    if |s| > 0 {
      AllSpaceLStrip(s[1..]);
    }
  }

  /** `split()` finds no token exactly in a string that is all whitespace. */
  lemma SplitEmptyIff(s: string)
    ensures Split(s) == [] <==> AllSpace(s)
  {
    if AllSpace(s) {
      AllSpaceLStrip(s);
    }
  }

  /** Some token of `ws`, placed at `pos`, covers position `i`. */
  ghost predicate Covered(ws: seq<string>, pos: seq<int>, i: int)
  {
    exists k :: 0 <= k < |ws| && k < |pos| && pos[k] <= i < pos[k] + |ws[k]|
  }

  /** `ws` are the whitespace-separated runs of `s`, found at `pos`: each
      token is the slice of `s` at its position, each starts after the end
      of the one before with at least one character in between, and a
      character of `s` is whitespace exactly when no token covers it. */
  ghost predicate RunsAt(s: string, ws: seq<string>, pos: seq<int>)
  {
    && |pos| == |ws|
    && (forall k :: 0 <= k < |ws| ==>
          0 <= pos[k] && pos[k] + |ws[k]| <= |s| && ws[k] == s[pos[k]..pos[k] + |ws[k]|])
    && (forall k :: 0 < k < |ws| ==> pos[k - 1] + |ws[k - 1]| < pos[k])
    && (forall i :: 0 <= i < |s| ==> (IsSpace(s[i]) <==> !Covered(ws, pos, i)))
  }

  /** `split()` returns the runs of non-whitespace characters of its input,
      every one of them, in order. */
  lemma SplitRunsOf(s: string)
    ensures exists pos :: RunsAt(s, Split(s), pos)
  {
    var pos := SplitRuns(s);
  }

  lemma {:induction false} SplitRuns(s: string) returns (pos: seq<int>)
    ensures RunsAt(s, Split(s), pos)
    decreases |s|
  {
    var t := LStrip(s);
    var a := |s| - |t|;
    if |t| == 0 {
      pos := [];
      assert Split(s) == [];
      forall i | 0 <= i < |s| ensures IsSpace(s[i]) && !Covered([], pos, i) {
      }
    } else {
      var k := WordEnd(t);
      assert k >= 1;
      var u := t[k..];
      var p := SplitRuns(u);
      pos := [a] + Offset(p, a + k);
      assert Split(s) == [t[..k]] + Split(u);
      RunsCons(s, a, t, k, Split(u), p);
    }
  }

  /** One more run in front of the runs of the rest of the string. */
  lemma RunsCons(s: string, a: int, t: string, k: int, rest: seq<string>, p: seq<int>)
    requires 0 <= a && a + |t| == |s| && t == s[a..]
    requires forall i :: 0 <= i < a ==> IsSpace(s[i])
    requires 1 <= k <= |t|
    requires forall i :: 0 <= i < k ==> !IsSpace(t[i])
    requires k < |t| ==> IsSpace(t[k])
    requires forall j :: 0 <= j < |rest| ==> IsWord(rest[j])
    requires RunsAt(t[k..], rest, p)
    ensures RunsAt(s, [t[..k]] + rest, [a] + Offset(p, a + k))
  {
    ConsSlices(s, a, t, k, rest, p);
    if |rest| > 0 {
      RunsStartAfterSpace(t[k..], rest, p);
    }
    ConsApart(a, t[..k], rest, p);
    ConsCover(s, a, t, k, rest, p);
  }

  lemma ConsSlices(s: string, a: int, t: string, k: int, rest: seq<string>, p: seq<int>)
    requires 0 <= a && a + |t| == |s| && t == s[a..] && 1 <= k <= |t|
    requires RunsAt(t[k..], rest, p)
    ensures var ws, pos := [t[..k]] + rest, [a] + Offset(p, a + k);
            forall j :: 0 <= j < |ws| ==>
              0 <= pos[j] && pos[j] + |ws[j]| <= |s| && ws[j] == s[pos[j]..pos[j] + |ws[j]|]
  {
    var ws, pos := [t[..k]] + rest, [a] + Offset(p, a + k);
    var u := t[k..];
    assert u == s[a + k..];
    forall j | 0 <= j < |ws|
      ensures 0 <= pos[j] && pos[j] + |ws[j]| <= |s| && ws[j] == s[pos[j]..pos[j] + |ws[j]|]
    {
      if j > 0 {
        var q := p[j - 1];
        assert ws[j] == rest[j - 1] == u[q..q + |rest[j - 1]|];
        assert pos[j] == q + a + k;
      }
    }
  }

  lemma ConsApart(a: int, w: string, rest: seq<string>, p: seq<int>)
    requires |p| == |rest|
    requires forall j :: 0 < j < |rest| ==> p[j - 1] + |rest[j - 1]| < p[j]
    requires |rest| > 0 ==> p[0] > 0
    ensures var ws, pos := [w] + rest, [a] + Offset(p, a + |w|);
            forall j :: 0 < j < |ws| ==> pos[j - 1] + |ws[j - 1]| < pos[j]
  {
    var k := |w|;
    var ws, pos := [w] + rest, [a] + Offset(p, a + k);
    forall j | 0 < j < |ws| ensures pos[j - 1] + |ws[j - 1]| < pos[j] {
      if j > 1 {
        assert ws[j - 1] == rest[j - 2];
        assert pos[j - 1] == p[j - 2] + a + k && pos[j] == p[j - 1] + a + k;
      }
    }
  }

  lemma ConsCover(s: string, a: int, t: string, k: int, rest: seq<string>, p: seq<int>)
    requires 0 <= a && a + |t| == |s| && t == s[a..]
    requires forall i :: 0 <= i < a ==> IsSpace(s[i])
    requires 1 <= k <= |t|
    requires forall i :: 0 <= i < k ==> !IsSpace(t[i])
    requires RunsAt(t[k..], rest, p)
    ensures var ws, pos := [t[..k]] + rest, [a] + Offset(p, a + k);
            forall i :: 0 <= i < |s| ==> (IsSpace(s[i]) <==> !Covered(ws, pos, i))
  {
    var ws, pos := [t[..k]] + rest, [a] + Offset(p, a + k);
    var u := t[k..];
    forall i | 0 <= i < |s| ensures IsSpace(s[i]) <==> !Covered(ws, pos, i) {
      CoveredCons(ws, pos, rest, p, a, k, i);
      if a <= i < a + k {
        assert s[i] == t[i - a];
      } else if a + k <= i {
        assert s[i] == u[i - a - k];
      }
    }
  }

  /** Where a string starts with whitespace, its first run starts later. */
  lemma RunsStartAfterSpace(u: string, rest: seq<string>, p: seq<int>)
    requires |rest| > 0 && IsWord(rest[0]) && RunsAt(u, rest, p)
    requires |u| > 0 ==> IsSpace(u[0])
    ensures p[0] > 0
  {
    assert p[0] == 0 ==> Covered(rest, p, 0);
  }

  /** The positions the runs of `[w] + rest` cover: the first run, then those
      of `rest` moved on. */
  lemma CoveredCons(ws: seq<string>, pos: seq<int>, rest: seq<string>, p: seq<int>, a: int, k: int, i: int)
    requires |p| == |rest| && 0 <= a && 1 <= k
    requires |ws| == |rest| + 1 && |ws[0]| == k && ws[1..] == rest
    requires pos == [a] + Offset(p, a + k)
    requires forall j :: 0 <= j < |p| ==> 0 <= p[j]
    ensures Covered(ws, pos, i) <==> (a <= i < a + k) || (a + k <= i && Covered(rest, p, i - a - k))
  {
    if Covered(ws, pos, i) {
      var j :| 0 <= j < |ws| && j < |pos| && pos[j] <= i < pos[j] + |ws[j]|;
      if j > 0 {
        assert ws[j] == rest[j - 1] && pos[j] == p[j - 1] + a + k;
        assert Covered(rest, p, i - a - k);
      }
    }
    if a + k <= i && Covered(rest, p, i - a - k) {
      var j :| 0 <= j < |rest| && j < |p| && p[j] <= i - a - k < p[j] + |rest[j]|;
      assert ws[j + 1] == rest[j] && pos[j + 1] == p[j] + a + k;
    }
    if a <= i < a + k {
      assert pos[0] <= i < pos[0] + |ws[0]|;
    }
  }
}
