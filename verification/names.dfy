/**
  `firstnameish`: shortening a client's full name into the waypoint name.
  Up to two whitespace-separated tokens are kept; the first is always kept
  as written, the second only if the first looks like an initial, and when
  the second token is also the last one it is cut to its first character
  and a full stop.
 */
module Names {
  import opened Optional
  import opened PyStr

  predicate IsAsciiLetter(c: char)
  {
    ('A' <= c <= 'Z') || ('a' <= c <= 'z')
  }

  /** The regular expression `[A-Za-z]\.?$` anchored at the start of a token:
      one ASCII letter, optionally followed by a full stop. (A token never
      ends in a newline, so `$` only matches at its end.) */
  predicate IsInitial(w: string)
  {
    || (|w| == 1 && IsAsciiLetter(w[0]))
    || (|w| == 2 && IsAsciiLetter(w[0]) && w[1] == '.')
  }

  /** A token cut to its first character followed by a full stop. */
  function Abbreviate(w: string): string
    requires |w| > 0
  {
    [w[0], '.']
  }

  /** `firstnameish(fullname)`, in closed form: nothing for a name that is
      empty or all whitespace, otherwise one or two tokens, the first being
      the name's first token. */
  function FirstNameish(fullname: string): (r: Option<string>)
    ensures r.None? <==> AllSpace(fullname)
    ensures r.None? <==> Split(fullname) == []
    ensures r.Some? ==> var t := Split(r.value); 1 <= |t| <= 2 && t[0] == Split(fullname)[0]
  {
    SplitEmptyIff(fullname);
    Shorten(Split(fullname))
  }

  /** What `firstnameish` makes of the name's tokens: nothing when there is
      none, otherwise the first token as written, followed by at most one
      more token. */
  function Shorten(names: seq<string>): (r: Option<string>)
    requires forall k :: 0 <= k < |names| ==> IsWord(names[k])
    ensures r.None? <==> |names| == 0
    ensures r.Some? ==> var t := Split(r.value); 1 <= |t| <= 2 && t[0] == names[0]
  {
    if |names| == 0 then None
    else if |names| == 1 || !IsInitial(names[0]) then
      SplitJoinSpace([names[0]]);
      Some(names[0])
    else if |names| == 2 then
      assert IsWord(names[1]);
      var pair := [names[0], Abbreviate(names[1])];
      assert IsWord(pair[1]);
      SplitJoinSpace(pair);
      Some(JoinSpace(pair))
    else
      var pair := [names[0], names[1]];
      SplitJoinSpace(pair);
      Some(JoinSpace(pair))
  }

  /** The loop of `firstnameish` as written: at most two rounds, appending the
      current token (abbreviated when it is the last one, which also ends the
      loop) and stopping after the first token that is not an initial. */
  method FirstNameishLoop(fullname: string) returns (r: Option<string>)
    ensures r == FirstNameish(fullname)
  {
    var names := Split(fullname);
    if |names| == 0 {
      return None;
    } else if |names| == 1 {
      return Some(names[0]);
    }
    var namelist: seq<string> := [];
    var index := 0;
    while index < 2
      invariant 0 <= index <= 2
      invariant index == 0 ==> namelist == []
      invariant index == 1 ==> namelist == [names[0]] && IsInitial(names[0])
      invariant index == 2 ==> namelist == [names[0], names[1]] && IsInitial(names[0]) && |names| > 2
    {
      if index == |names| - 1 {
        namelist := namelist + [Abbreviate(names[index])];
        break;
      }
      namelist := namelist + [names[index]];
      if !IsInitial(names[index]) {
        break;
      }
      index := index + 1;
    }
    r := Some(JoinSpace(namelist));
  }

  /** A blank name gives nothing; a one-token name comes back stripped. */
  lemma FirstNameishShort(fullname: string)
    ensures FirstNameish(fullname).None? <==> Split(fullname) == []
    ensures |Split(fullname)| == 1 ==> FirstNameish(fullname) == Some(Strip(fullname))
  {
    if |Split(fullname)| == 1 {
      SingleTokenIsStrip(fullname);
    }
  }

  /** A first token that is not an initial is all that is kept. */
  lemma NonInitialStops(names: seq<string>)
    requires forall k :: 0 <= k < |names| ==> IsWord(names[k])
    requires |names| >= 2 && !IsInitial(names[0])
    ensures Shorten(names) == Some(names[0])
    ensures Shorten(names).Some? && Split(Shorten(names).value) == [names[0]]
  {
    SplitJoinSpace([names[0]]);
  }

  /** An initial followed by the last token: that token is cut to its first
      character and a full stop. */
  lemma LastTokenAbbreviated(names: seq<string>)
    requires forall k :: 0 <= k < |names| ==> IsWord(names[k])
    requires |names| == 2 && IsInitial(names[0])
    ensures Shorten(names) == Some(names[0] + " " + [names[1][0], '.'])
    ensures Shorten(names).Some? && Split(Shorten(names).value) == [names[0], Abbreviate(names[1])]
  {
    var pair := [names[0], Abbreviate(names[1])];
    assert JoinSpace(pair) == names[0] + " " + JoinSpace(pair[1..]);
    assert pair[1..] == [Abbreviate(names[1])];
    assert IsWord(pair[0]) && IsWord(pair[1]);
    SplitJoinSpace(pair);
  }

  /** An initial followed by more than one token: the first two tokens are
      kept as written and the rest dropped. */
  lemma TwoTokensKept(names: seq<string>)
    requires forall k :: 0 <= k < |names| ==> IsWord(names[k])
    requires |names| > 2 && IsInitial(names[0])
    ensures Shorten(names) == Some(names[0] + " " + names[1])
    ensures Shorten(names).Some? && Split(Shorten(names).value) == names[..2]
  {
    var kept := names[..2];
    assert kept == [names[0], names[1]];
    assert JoinSpace(kept) == names[0] + " " + JoinSpace(kept[1..]);
    assert kept[1..] == [names[1]];
    SplitJoinSpace(kept);
  }

  /** A one-token name comes back unchanged, so shortening it again changes
      nothing either. */
  lemma SingleTokenFixedPoint(w: string)
    requires IsWord(w)
    ensures FirstNameish(w) == Some(w)
  {
    SplitJoinSpace([w]);
    assert Split(w) == [w];
  }
}
