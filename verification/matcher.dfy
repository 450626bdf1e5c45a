/**
  `match_tags`: the one-pass structural matcher. It checks a parent's
  children against an ordered pattern of slots and hands back the children
  bound to the slots' names.

  The XPath test `self::<expr>` a slot applies to a child is an oracle
  (`SelfCount`): only the number of nodes it returns matters. For a `self::`
  test the only node it can return is the child itself, and the model binds
  that child.
 */
module Matcher {
  import opened Optional
  import opened Dom
  import opened Filters

  /** One pattern entry: the XPath expression the child must match, the name
      to bind the child to (if any), and whether the entry may be absent. */
  datatype Slot = Slot(expr: string, bind: Option<string>, opt: bool)

  /** The Python exceptions `match_tags` can raise. */
  datatype Raise = ValueError | IndexError

  /** What a call of `match_tags` comes to: the dict it returns, `None`, or
      the exception it raises. */
  datatype Outcome = Match(binds: map<string, Node>) | NoMatch | Error(raised: Raise)

  /** How many nodes `node.xpath('self::' + expr)` returns. */
  type SelfCount = (string, Node) -> nat

  predicate IsMandatory(s: Slot)
  {
    !s.opt
  }

  /** The slots not marked optional, in pattern order. */
  function Mandatory(pattern: seq<Slot>): (r: seq<Slot>)
    ensures |r| <= |pattern|
    ensures forall k :: 0 <= k < |r| ==> !r[k].opt
  {
    if |pattern| == 0 then []
    else if pattern[0].opt then Mandatory(pattern[1..])
    else [pattern[0]] + Mandatory(pattern[1..])
  }

  /** The mandatory part keeps every slot not marked optional, and only
      those, in pattern order. */
  lemma {:induction false} MandatoryFiltered(pattern: seq<Slot>)
    ensures Filtered(Mandatory(pattern), pattern, IsMandatory)
  {
    if |pattern| == 0 {
      FilteredNil(IsMandatory);
    } else {
      MandatoryFiltered(pattern[1..]);
      FilteredCons(pattern[0], pattern[1..], Mandatory(pattern[1..]), IsMandatory);
      assert [pattern[0]] + pattern[1..] == pattern;
    }
  }

  function OptionalCount(pattern: seq<Slot>): nat
  {
    |pattern| - |Mandatory(pattern)|
  }

  /** The names bound by a list of slots. */
  ghost function BindNames(slots: seq<Slot>): set<string>
  {
    set i | 0 <= i < |slots| && slots[i].bind.Some? :: slots[i].bind.value
  }

  /** The slots the lock-step walk uses for a parent with `n` children, or
      `None` when the count already rules a match out. Only a pattern with
      exactly one optional slot is checked against the count. */
  function SlotsToUse(pattern: seq<Slot>, n: nat): Option<seq<Slot>>
  {
    if OptionalCount(pattern) == 1 then
      if |pattern| == n + 1 then Some(Mandatory(pattern))
      else if |pattern| != n then None
      else Some(pattern)
    else Some(pattern)
  }

  function BindOne(s: Slot, n: Node): map<string, Node>
  {
    if s.bind.Some? then map[s.bind.value := n] else map[]
  }

  /** The loop of `match_tags`: pop one child per slot, test it, record its
      binding. Running out of children raises `IndexError`; a later slot's
      binding overwrites an earlier one of the same name. */
  function Walk(slots: seq<Slot>, nodes: seq<Node>, count: SelfCount): (r: Outcome)
    ensures r.Match? ==>
              && |slots| <= |nodes|
              && forall i :: 0 <= i < |slots| ==> count(slots[i].expr, nodes[i]) == 1
    ensures r == Error(IndexError) ==> |nodes| < |slots|
  {
    if |slots| == 0 then Match(map[])
    else if |nodes| == 0 then Error(IndexError)
    else
      var c := count(slots[0].expr, nodes[0]);
      if c > 1 then Error(ValueError)
      else if c == 0 then NoMatch
      else
        match Walk(slots[1..], nodes[1..], count)
        case Match(m) => Match(BindOne(slots[0], nodes[0]) + m)
        case other => other
  }

  /** `match_tags(startnode, pattern)`, with `children` the children of
      `startnode`. */
  function MatchTags(children: seq<Node>, pattern: seq<Slot>, count: SelfCount): (r: Outcome)
    ensures (exists k :: 0 <= k < |children| && Significant(children[k]) && children[k].Text?)
            ==> r == NoMatch
    ensures !HasText(SignificantChildren(children)) && OptionalCount(pattern) > 1
            ==> r == Error(ValueError)
  {
    var nodes := SignificantChildren(children);
    if HasText(nodes) then NoMatch
    else if OptionalCount(pattern) > 1 then Error(ValueError)
    else
      match SlotsToUse(pattern, |nodes|)
      case None => NoMatch
      case Some(slots) => Walk(slots, nodes, count)
  }

  // ---------------------------------------------------------------------
  // A declarative reading of the walk

  /** Slot `i` has a child to test and that child passes the slot's test
      exactly once. */
  ghost predicate Fits(slots: seq<Slot>, nodes: seq<Node>, count: SelfCount, i: int)
  {
    0 <= i < |slots| && i < |nodes| && count(slots[i].expr, nodes[i]) == 1
  }

  ghost predicate FitsUpTo(slots: seq<Slot>, nodes: seq<Node>, count: SelfCount, k: int)
  {
    forall i :: 0 <= i < k ==> Fits(slots, nodes, count, i)
  }

  /** The walk reaches slot `k` with a child to test, and that child passes
      the test `c` times, for `c` in the given range. */
  ghost predicate StopsAt(slots: seq<Slot>, nodes: seq<Node>, count: SelfCount, k: int, many: bool)
  {
    && 0 <= k < |slots| && k < |nodes|
    && FitsUpTo(slots, nodes, count, k)
    && (if many then count(slots[k].expr, nodes[k]) > 1 else count(slots[k].expr, nodes[k]) == 0)
  }

  /** Slot `i` binds a name no later slot binds again. */
  ghost predicate FinalBinder(slots: seq<Slot>, i: int)
  {
    && 0 <= i < |slots|
    && slots[i].bind.Some?
    && forall j :: i < j < |slots| ==> slots[j].bind != slots[i].bind
  }

  /** `m` holds exactly the names the slots bind, each mapped to the child
      paired with the last slot that binds it. */
  ghost predicate BindingOf(m: map<string, Node>, slots: seq<Slot>, nodes: seq<Node>)
  {
    && m.Keys == BindNames(slots)
    && forall i :: FinalBinder(slots, i) && i < |nodes| ==> m[slots[i].bind.value] == nodes[i]
  }

  lemma FitsShift(slots: seq<Slot>, nodes: seq<Node>, count: SelfCount, k: int)
    requires |slots| > 0 && |nodes| > 0 && 0 <= k
    ensures FitsUpTo(slots, nodes, count, k + 1)
            <==> Fits(slots, nodes, count, 0) && FitsUpTo(slots[1..], nodes[1..], count, k)
  {
    if FitsUpTo(slots, nodes, count, k + 1) {
      assert Fits(slots, nodes, count, 0);
      forall i | 0 <= i < k ensures Fits(slots[1..], nodes[1..], count, i) {
        assert Fits(slots, nodes, count, i + 1);
      }
    }
    if Fits(slots, nodes, count, 0) && FitsUpTo(slots[1..], nodes[1..], count, k) {
      forall i | 0 <= i < k + 1 ensures Fits(slots, nodes, count, i) {
        if i > 0 {
          assert Fits(slots[1..], nodes[1..], count, i - 1);
        }
      }
    }
  }

  lemma StopsShift(slots: seq<Slot>, nodes: seq<Node>, count: SelfCount, many: bool)
    requires |slots| > 0 && |nodes| > 0 && Fits(slots, nodes, count, 0)
    ensures (exists k :: StopsAt(slots, nodes, count, k, many))
            <==> (exists k :: StopsAt(slots[1..], nodes[1..], count, k, many))
  {
    if k :| StopsAt(slots, nodes, count, k, many) {
      assert k > 0;
      FitsShift(slots, nodes, count, k - 1);
      assert StopsAt(slots[1..], nodes[1..], count, k - 1, many);
    }
    if k :| StopsAt(slots[1..], nodes[1..], count, k, many) {
      FitsShift(slots, nodes, count, k);
      assert StopsAt(slots, nodes, count, k + 1, many);
    }
  }

  lemma BindNamesShift(slots: seq<Slot>)
    requires |slots| > 0
    ensures BindNames(slots) == BindOne(slots[0], Other).Keys + BindNames(slots[1..])
  {
    var tail := slots[1..];
    forall b | b in BindNames(slots)
      ensures b in BindOne(slots[0], Other).Keys + BindNames(tail)
    {
      var i :| 0 <= i < |slots| && slots[i].bind.Some? && slots[i].bind.value == b;
      if i > 0 {
        assert tail[i - 1] == slots[i];
      }
    }
    forall b | b in BindNames(tail) ensures b in BindNames(slots) {
      var i :| 0 <= i < |tail| && tail[i].bind.Some? && tail[i].bind.value == b;
      assert slots[i + 1] == tail[i];
    }
  }

  lemma BindingShift(slots: seq<Slot>, nodes: seq<Node>, m: map<string, Node>)
    requires |slots| > 0 && |nodes| > 0
    requires BindingOf(m, slots[1..], nodes[1..])
    ensures BindingOf(BindOne(slots[0], nodes[0]) + m, slots, nodes)
  {
    var m' := BindOne(slots[0], nodes[0]) + m;
    BindNamesShift(slots);
    forall i | FinalBinder(slots, i) && i < |nodes|
      ensures m'[slots[i].bind.value] == nodes[i]
    {
      var b := slots[i].bind.value;
      if i == 0 {
        forall j | 0 <= j < |slots[1..]| ensures slots[1..][j].bind != Some(b) {
          assert slots[1..][j] == slots[j + 1];
        }
        assert b !in m;
      } else {
        assert FinalBinder(slots[1..], i - 1);
        assert b in BindNames(slots[1..]) by {
          assert slots[1..][i - 1].bind == Some(b);
        }
      }
    }
  }

  /** The walk succeeds exactly when every slot fits its child, and then binds
      the slots' names; it raises `IndexError` exactly when the children run
      out while every slot so far fitted; it raises `ValueError`, or gives
      `None`, at the first slot whose child passes more than once, or not at
      all. */
  lemma {:induction false} WalkSpec(slots: seq<Slot>, nodes: seq<Node>, count: SelfCount)
    ensures Walk(slots, nodes, count).Match? <==> FitsUpTo(slots, nodes, count, |slots|)
    ensures Walk(slots, nodes, count).Match? ==> BindingOf(Walk(slots, nodes, count).binds, slots, nodes)
    ensures Walk(slots, nodes, count) == Error(IndexError)
            <==> |nodes| < |slots| && FitsUpTo(slots, nodes, count, |nodes|)
    ensures Walk(slots, nodes, count) == Error(ValueError)
            <==> exists k :: StopsAt(slots, nodes, count, k, true)
    ensures Walk(slots, nodes, count) == NoMatch
            <==> exists k :: StopsAt(slots, nodes, count, k, false)
    decreases |slots|
  {
    var r := Walk(slots, nodes, count);
    if |slots| == 0 {
      assert BindNames(slots) == {};
    } else if |nodes| == 0 {
      assert !Fits(slots, nodes, count, 0);
    } else {
      var c := count(slots[0].expr, nodes[0]);
      if c != 1 {
        assert !Fits(slots, nodes, count, 0);
        assert StopsAt(slots, nodes, count, 0, c > 1);
        forall k | 0 < k ensures !FitsUpTo(slots, nodes, count, k) {
          assert !Fits(slots, nodes, count, 0);
        }
      } else {
        assert Fits(slots, nodes, count, 0);
        WalkSpec(slots[1..], nodes[1..], count);
        FitsShift(slots, nodes, count, |slots| - 1);
        FitsShift(slots, nodes, count, |nodes| - 1);
        StopsShift(slots, nodes, count, true);
        StopsShift(slots, nodes, count, false);
        var t := Walk(slots[1..], nodes[1..], count);
        if t.Match? {
          BindingShift(slots, nodes, t.binds);
        }
      }
    }
  }

  // ---------------------------------------------------------------------
  // Properties of `match_tags`

  /** The slot lists a successful match may have walked for a parent with
      `n` significant children: with one optional slot, the whole pattern
      when `n` equals its length and the mandatory slots when `n` is one
      short; with no optional slot, the whole pattern whenever `n` is at
      least its length (surplus children are never looked at). */
  ghost predicate Admits(pattern: seq<Slot>, n: nat, used: seq<Slot>)
  {
    || (OptionalCount(pattern) == 1 && n == |pattern| && used == pattern)
    || (OptionalCount(pattern) == 1 && n + 1 == |pattern| && used == Mandatory(pattern))
    || (OptionalCount(pattern) == 0 && n >= |pattern| && used == pattern)
  }

  /** `match_tags` returns a dict exactly when the parent has no significant
      text, the pattern has at most one optional slot, the child count admits
      a slot list, and each slot of that list fits the child at its
      position; the dict then binds exactly that list's names. */
  lemma MatchTagsIff(children: seq<Node>, pattern: seq<Slot>, count: SelfCount)
    ensures var nodes := SignificantChildren(children);
            MatchTags(children, pattern, count).Match?
            <==> !HasText(nodes)
                 && exists used :: Admits(pattern, |nodes|, used) && FitsUpTo(used, nodes, count, |used|)
    ensures var nodes := SignificantChildren(children);
            var r := MatchTags(children, pattern, count);
            r.Match? ==> exists used :: Admits(pattern, |nodes|, used) && BindingOf(r.binds, used, nodes)
  {
    var nodes := SignificantChildren(children);
    var r := MatchTags(children, pattern, count);
    if !HasText(nodes) && OptionalCount(pattern) <= 1 {
      match SlotsToUse(pattern, |nodes|)
      case None =>
        forall used | Admits(pattern, |nodes|, used) ensures false {
        }
      case Some(slots) =>
        WalkSpec(slots, nodes, count);
        assert Admits(pattern, |nodes|, slots) <==> |slots| <= |nodes|;
        forall used | Admits(pattern, |nodes|, used) ensures used == slots {
        }
    } else if !HasText(nodes) {
      forall used | Admits(pattern, |nodes|, used) ensures false {
      }
    }
  }

  /** `match_tags` raises `ValueError` exactly when the parent has no
      significant text and either the pattern has more than one optional
      slot or the walk reaches a child that passes its slot's test more than
      once; it raises `IndexError` exactly when the pattern has no optional
      slot, the parent has fewer significant children than slots and every
      one of them fitted its slot. */
  lemma MatchTagsErrors(children: seq<Node>, pattern: seq<Slot>, count: SelfCount)
    ensures var nodes := SignificantChildren(children);
            MatchTags(children, pattern, count) == Error(ValueError)
            <==> && !HasText(nodes)
                 && (|| OptionalCount(pattern) > 1
                     || (&& SlotsToUse(pattern, |nodes|).Some?
                         && exists k :: StopsAt(SlotsToUse(pattern, |nodes|).value, nodes, count, k, true)))
    ensures var nodes := SignificantChildren(children);
            MatchTags(children, pattern, count) == Error(IndexError)
            <==> && !HasText(nodes)
                 && OptionalCount(pattern) == 0
                 && |nodes| < |pattern|
                 && FitsUpTo(pattern, nodes, count, |nodes|)
  {
    var nodes := SignificantChildren(children);
    if !HasText(nodes) && OptionalCount(pattern) <= 1 {
      match SlotsToUse(pattern, |nodes|)
      case None =>
      case Some(slots) =>
        WalkSpec(slots, nodes, count);
        if OptionalCount(pattern) == 1 {
          assert |slots| <= |nodes|;
        }
    }
  }

  /** With exactly one optional slot the child count decides everything
      before any child is tested: a match needs as many children as slots
      (optional slot used) or one fewer (optional slot dropped, so only the
      mandatory slots' names are bound), any other count gives `None`, and
      `IndexError` cannot happen. */
  lemma OneOptionalLengthRule(children: seq<Node>, pattern: seq<Slot>, count: SelfCount)
    requires OptionalCount(pattern) == 1
    ensures var n := |SignificantChildren(children)|;
            var r := MatchTags(children, pattern, count);
            && (r.Match? ==> n == |pattern| || n + 1 == |pattern|)
            && (r.Match? && n == |pattern| ==> r.binds.Keys == BindNames(pattern))
            && (r.Match? && n + 1 == |pattern| ==> r.binds.Keys == BindNames(Mandatory(pattern)))
            && (!HasText(SignificantChildren(children)) && n != |pattern| && n + 1 != |pattern| ==> r == NoMatch)
            && r != Error(IndexError)
  {
    var nodes := SignificantChildren(children);
    if !HasText(nodes) {
      match SlotsToUse(pattern, |nodes|)
      case None =>
      case Some(slots) =>
        WalkSpec(slots, nodes, count);
    }
  }

  /** With no optional slot there is no length check: too few children
      raises `IndexError` as soon as every slot that had a child fitted it,
      which is exactly when the walk reaches the missing child. */
  lemma NoOptionalShortfall(children: seq<Node>, pattern: seq<Slot>, count: SelfCount)
    requires OptionalCount(pattern) == 0
    requires !HasText(SignificantChildren(children))
    ensures var nodes := SignificantChildren(children);
            MatchTags(children, pattern, count) == Error(IndexError)
            <==> |nodes| < |pattern| && FitsUpTo(pattern, nodes, count, |nodes|)
  {
    WalkSpec(pattern, SignificantChildren(children), count);
  }

  /** With no optional slot, children after the first `|pattern|` significant
      ones are ignored, provided they bring no significant text. */
  lemma NoOptionalSurplusIgnored(children: seq<Node>, extra: seq<Node>, pattern: seq<Slot>, count: SelfCount)
    requires OptionalCount(pattern) == 0
    requires |SignificantChildren(children)| >= |pattern|
    requires !HasText(SignificantChildren(extra))
    ensures MatchTags(children + extra, pattern, count) == MatchTags(children, pattern, count)
  {
    var a: seq<Node> := SignificantChildren(children);
    var b: seq<Node> := SignificantChildren(extra);
    SignificantConcat(children, extra);
    HasTextConcat(a, b);
    WalkIgnoresSurplus(pattern, a, b, count);
  }

  /** Appending nodes without text adds no text. */
  lemma HasTextConcat(a: seq<Node>, b: seq<Node>)
    requires !HasText(b)
    ensures HasText(a + b) <==> HasText(a)
  {
    forall k: int | |a| <= k < |a + b| ensures !(a + b)[k].Text? {
      assert (a + b)[k] == b[k - |a|];
    }
    if HasText(a + b) {
      var k :| 0 <= k < |a + b| && (a + b)[k].Text?;
      assert a[k].Text?;
    }
    if HasText(a) {
      var k :| 0 <= k < |a| && a[k].Text?;
      assert (a + b)[k].Text?;
    }
  }

  lemma {:induction false} SignificantConcat(xs: seq<Node>, ys: seq<Node>)
    ensures SignificantChildren(xs + ys) == SignificantChildren(xs) + SignificantChildren(ys)
  {
    if |xs| == 0 {
      assert xs + ys == ys;
    } else {
      assert (xs + ys)[1..] == xs[1..] + ys;
      SignificantConcat(xs[1..], ys);
    }
  }

  lemma {:induction false} WalkIgnoresSurplus(slots: seq<Slot>, nodes: seq<Node>, more: seq<Node>, count: SelfCount)
    requires |nodes| >= |slots|
    ensures Walk(slots, nodes + more, count) == Walk(slots, nodes, count)
  {
    if |slots| > 0 {
      assert (nodes + more)[0] == nodes[0];
      assert (nodes + more)[1..] == nodes[1..] + more;
      WalkIgnoresSurplus(slots[1..], nodes[1..], more, count);
    }
  }

  /** An empty pattern matches any parent without significant text, with no
      bindings: there is nothing to test and no length check. */
  lemma EmptyPatternMatches(children: seq<Node>, count: SelfCount)
    requires !HasText(SignificantChildren(children))
    ensures MatchTags(children, [], count) == Match(map[])
  {
  }
}
