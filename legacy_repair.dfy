/**
 * The pre-parse markup repair of the older viewer. It differs from the newer
 * one in its comment rule: `--` goes in when the `<` itself starts `<!--` and
 * the first `-->` from there does not end at the first `>`, whatever the tag
 * holds; otherwise the same quote rule applies.
 */
module LegacyRepair {
  import opened JsString
  import opened Rounds
  import opened RepairLoop
  import MarkupRepair

  /** The older rule on the text, the cursor's `<` and the index of the next `>` (or -1). */
  function LegacyPatch(s: string, lt: int, gt: int): (r: string)
    ensures FillOnly(r)
  {
    var commentStart := IndexOf(s, "<!--", lt);
    var commentEnd := IndexOf(s, "-->", commentStart);
    if lt == commentStart && commentStart != -1 && commentEnd != gt - 2 then "--"
    else MarkupRepair.QuoteFix(Substring(s, lt + 1, gt))
  }

  const Legacy: Rule := (s: string, lt: int, gt: int) => LegacyPatch(s, lt, gt)

  /**
   * With a `>` after the cursor, the comment fix applies exactly when the tag
   * starts `<!--` and its first `>` does not close a `-->`; otherwise the
   * quote rule decides, on the text between `<` and `>`.
   */
  lemma LegacyRules(s: string, lt: nat, gt: int)
    requires lt < |s| && s[lt] == '<' && gt == IndexOf(s, ">", lt) && gt != -1
    ensures LegacyPatch(s, lt, gt) == "--" <==> MatchAt(s, "<!--", lt) && !MatchAt(s, "-->", gt - 2)
    ensures LegacyPatch(s, lt, gt) != "--" ==>
      LegacyPatch(s, lt, gt) == (if MarkupRepair.QuoteRule(Substring(s, lt + 1, gt)) then "\"" else "")
  {
    MarkupRepair.QuoteFixRule(Substring(s, lt + 1, gt));
    if MatchAt(s, "<!--", lt) {
      IndexOfIs(s, "<!--", lt, lt);
      FirstCommentEnd(s, lt, gt);
    } else {
      var cs := IndexOf(s, "<!--", lt);
      assert cs != lt;
    }
  }

  /**
   * Behind a `<!--` at `lt`, the first `-->` from there sits at `gt - 2`
   * exactly when the first `>` closes one.
   */
  lemma FirstCommentEnd(s: string, lt: nat, gt: int)
    requires MatchAt(s, "<!--", lt) && gt == IndexOf(s, ">", lt) && gt != -1
    ensures IndexOf(s, "-->", lt) == gt - 2 <==> MatchAt(s, "-->", gt - 2)
  {
    MatchChar(s, '>', gt);
    OpenerHasNoClose(s, lt);
    assert gt >= lt + 4;
    if MatchAt(s, "-->", gt - 2) {
      forall k | lt <= k < gt - 2 ensures !MatchAt(s, "-->", k) {
        if MatchAt(s, "-->", k) {
          CommentEndAt(s, k);
          MatchChar(s, '>', k + 2);
        }
      }
      IndexOfIs(s, "-->", lt, gt - 2);
    }
  }

  /** The four characters of `<!--` hold no `>`. */
  lemma OpenerHasNoClose(s: string, lt: nat)
    requires MatchAt(s, "<!--", lt)
    ensures forall k :: lt <= k < lt + 4 ==> s[k] != '>'
  {
    assert s[lt..lt + 4] == "<!--";
    assert s[lt] == s[lt..lt + 4][0];
    assert s[lt + 1] == s[lt..lt + 4][1];
    assert s[lt + 2] == s[lt..lt + 4][2];
    assert s[lt + 3] == s[lt..lt + 4][3];
  }

  /** A `-->` ends in a `>`. */
  lemma CommentEndAt(s: string, k: int)
    requires MatchAt(s, "-->", k)
    ensures s[k + 2] == '>'
  {
    assert s[k..k + 3][2] == s[k + 2];
  }

  /** One visit of the older loop: the patch for the tag whose `<` is at `lessThan`. */
  method LegacyRepairTag(markup: string, lessThan: nat) returns (pageMarkup: string)
    requires lessThan < |markup| && markup[lessThan] == '<'
    ensures pageMarkup == Step(Legacy, markup, lessThan).0
  {
    pageMarkup := markup;
    var commentStart := IndexOf(pageMarkup, "<!--", lessThan);
    var commentEnd := IndexOf(pageMarkup, "-->", commentStart);
    var greaterThan := IndexOf(pageMarkup, ">", lessThan);
    if greaterThan == -1 {
      assert CloseOf(pageMarkup, lessThan) == -1;
    } else {
      SpliceIs(Legacy, pageMarkup, lessThan, greaterThan);
      assert Legacy(pageMarkup, lessThan, greaterThan) == LegacyPatch(pageMarkup, lessThan, greaterThan);
      if lessThan == commentStart && commentStart != -1 && commentEnd != greaterThan - 2 {
        pageMarkup := Substring(pageMarkup, 0, greaterThan) + "--" + Substring(pageMarkup, greaterThan, |pageMarkup|);
      } else {
        var innerElement := Substring(pageMarkup, lessThan + 1, greaterThan);
        assert LegacyPatch(pageMarkup, lessThan, greaterThan) == MarkupRepair.QuoteFix(innerElement);
        var attributeStart := LastIndexOf(innerElement, "=\"");
        if attributeStart != -1 && IndexOf(innerElement, "\"", attributeStart + 2) == -1 {
          pageMarkup := Substring(pageMarkup, 0, greaterThan) + "\"" + Substring(pageMarkup, greaterThan, |pageMarkup|);
        }
      }
    }
  }

  /** The older repair loop; a `<` that no `>` follows is left alone (see `LegacyStuckForever`). */
  method LegacyRepairMarkup(markup: string) returns (pageMarkup: string)
    ensures pageMarkup == Repaired(Legacy, markup)
  {
    pageMarkup := markup;
    var lessThan := IndexOf(pageMarkup, "<", 0);
    CursorStart(pageMarkup, lessThan);
    while lessThan != -1
      invariant lessThan == -1 || (0 <= lessThan < |pageMarkup| && pageMarkup[lessThan] == '<')
      invariant RepairFrom(Legacy, pageMarkup, lessThan) == Repaired(Legacy, markup)
      decreases if lessThan == -1 then 0 else Opens(pageMarkup[lessThan..])
    {
      ghost var before := pageMarkup;
      pageMarkup := LegacyRepairTag(pageMarkup, lessThan);
      StepDecreases(Legacy, before, lessThan);
      lessThan := IndexOf(pageMarkup, "<", lessThan + 1);
    }
  }

  /**
   * A state the older loop as written never leaves: the cursor's `<` starts
   * `<!--`, no `>` follows, and the character before it is not a `<`.
   */
  predicate LegacyStuck(s: string, lt: int) {
    0 <= lt && MatchAt(s, "<!--", lt) && IndexOf(s, ">", lt) == -1 && (lt == 0 || s[lt - 1] != '<')
  }

  /** From a stuck state the older loop prepends `--`, and the same `<` is found again two places on. */
  lemma LegacyStuckStep(s: string, lt: int)
    requires LegacyStuck(s, lt)
    ensures StepAsWritten(Legacy, s, lt) == ("--" + s, lt + 2)
    ensures LegacyStuck("--" + s, lt + 2)
  {
    StuckPatch(s, lt);
    MisplacedPatch(Legacy, s, lt);
    StuckNext(s, lt);
  }

  /** Without a `>` the comment test compares -1 with -3, so the comment fix always applies. */
  lemma StuckPatch(s: string, lt: int)
    requires LegacyStuck(s, lt)
    ensures lt < |s| && Legacy(s, lt, IndexOf(s, ">", lt)) == "--"
  {
    assert s[lt..lt + 4][0] == s[lt];
    forall k | lt <= k < |s| ensures s[k] != '>' {
      MatchChar(s, '>', k);
    }
    NoCommentEnd(s, lt);
    IndexOfIs(s, "<!--", lt, lt);
  }

  lemma StuckNext(s: string, lt: int)
    requires LegacyStuck(s, lt)
    ensures IndexOf("--" + s, "<", lt + 1) == lt + 2
    ensures LegacyStuck("--" + s, lt + 2)
  {
    var s' := "--" + s;
    assert s[lt] == '<' by {
      assert s[lt..lt + 4][0] == s[lt];
    }
    assert s'[lt + 2] == s[lt];
    assert s'[lt + 1] != '<' by {
      if lt > 0 {
        assert s'[lt + 1] == s[lt - 1];
      }
    }
    IndexOfChar(s', '<', lt + 1, lt + 2);
    MatchShiftBy("--", s, "<!--", lt);
    AbsentAfterPrefix("--", s, '>', lt);
  }

  /** With no `>` from `lt` on there is no `-->` either. */
  lemma NoCommentEnd(s: string, lt: nat)
    requires forall k :: lt <= k < |s| ==> s[k] != '>'
    ensures IndexOf(s, "-->", lt) == -1
  {
    var e := IndexOf(s, "-->", lt);
    if e != -1 {
      CommentEndAt(s, e);
    }
  }

  /** From a stuck state the older loop as written runs for ever. */
  lemma LegacyStuckForever(s: string, lt: int, n: nat)
    requires LegacyStuck(s, lt)
    ensures Iterate(BodyAsWritten(Legacy), (s, lt), n).1 != -1
  {
    var body := BodyAsWritten(Legacy);
    forall x: State | LegacyStuck(x.0, x.1) ensures LegacyStuck(body(x).0, body(x).1) {
      LegacyStuckStep(x.0, x.1);
    }
    NeverExits(body, (x: State) => LegacyStuck(x.0, x.1), (s, lt), n);
  }

  /** `<!--` keeps the older loop as written busy for ever, while the corrected repair leaves it unchanged. */
  lemma LegacyDivergingInput(s: string)
    requires s == "<!--"
    ensures forall n: nat :: Iterate(BodyAsWritten(Legacy), (s, IndexOf(s, "<", 0)), n).1 != -1
    ensures Repaired(Legacy, s) == s
  {
    IndexOfChar(s, '<', 0, 0);
    IndexOfAbsent(s, '>', 0);
    assert s[0..4] == "<!--";
    assert LegacyStuck(s, 0);
    forall n: nat ensures Iterate(BodyAsWritten(Legacy), (s, 0), n).1 != -1 {
      LegacyStuckForever(s, 0, n);
    }
    UnclosedLeftAlone(Legacy, s, 0);
  }

  /** A `<!--` starts at `lt` or further on. */
  predicate CommentAhead(s: string, lt: int) {
    exists q :: lt <= q < |s| && MatchAt(s, "<!--", q)
  }

  /**
   * The states the older loop as written never leaves once it misplaces a
   * patch: no `>` follows the cursor, and either a `<!--` lies ahead (each of
   * its rounds prepends `--`) or the quote rule fires on every tag text up
   * to the cursor. `LegacyStuck` is the part of the first kind where the
   * cursor is on the `<!--` itself.
   */
  predicate LegacyLoops(s: string, lt: int) {
    Unclosed(s, lt) &&
    (CommentAhead(s, lt) || (!MatchAt(s, "<!--", lt) && MarkupRepair.QuoteRule(s[..lt + 1])))
  }

  /** With no `>` after the cursor, the older rule adds `--` exactly at a `<!--`, and otherwise the quote fix of all the text up to the cursor. */
  lemma LegacyMisplacedPatch(s: string, lt: int)
    requires Unclosed(s, lt)
    ensures Legacy(s, lt, -1) == if MatchAt(s, "<!--", lt) then "--" else MarkupRepair.QuoteFix(s[..lt + 1])
  {
    assert Legacy(s, lt, -1) == LegacyPatch(s, lt, -1);
    assert Substring(s, lt + 1, -1) == s[..lt + 1];
    if MatchAt(s, "<!--", lt) {
      IndexOfIs(s, "<!--", lt, lt);
    }
  }

  /** A `<!--` starts with `<`. */
  lemma OpenerAt(s: string, q: int)
    requires MatchAt(s, "<!--", q)
    ensures q < |s| && s[q] == '<'
  {
    assert s[q..q + 4][0] == s[q];
  }

  /** With no `>` after the cursor, the next `<` up to some `<` at `q` has no `>` after it either. */
  lemma NextUnclosed(s: string, lt: int, q: int)
    requires Unclosed(s, lt) && lt < q < |s| && s[q] == '<'
    ensures var c := IndexOf(s, "<", lt + 1); lt < c <= q && Unclosed(s, c)
  {
    var c := IndexOf(s, "<", lt + 1);
    MatchChar(s, '<', q);
    MatchChar(s, '<', c);
    forall k | lt <= k < |s| ensures s[k] != '>' {
      MatchChar(s, '>', k);
    }
    IndexOfAbsent(s, '>', c);
  }

  /** A `<!--` ahead stays ahead when fill goes in front of the text and the cursor moves by at most that much. */
  lemma CommentStaysAhead(s: string, lt: int, p: string, c: int)
    requires CommentAhead(s, lt) && c <= lt + |p|
    ensures CommentAhead(p + s, c)
  {
    var q :| lt <= q < |s| && MatchAt(s, "<!--", q);
    MatchShiftBy(p, s, "<!--", q);
  }

  /** A round from a state with a `<!--` ahead leads to another such state. */
  lemma AheadStep(s: string, lt: int)
    requires Unclosed(s, lt) && CommentAhead(s, lt)
    ensures var x := StepAsWritten(Legacy, s, lt); Unclosed(x.0, x.1) && CommentAhead(x.0, x.1)
  {
    var p := Legacy(s, lt, -1);
    MisplacedPatch(Legacy, s, lt);
    if p == "" {
      var q :| lt <= q < |s| && MatchAt(s, "<!--", q);
      OpenerAt(s, q);
      LegacyMisplacedPatch(s, lt);
      assert q != lt;
      NextUnclosed(s, lt, q);
    } else {
      PrependedCursor(s, lt, p);
      CommentStaysAhead(s, lt, p, IndexOf(p + s, "<", lt + 1));
    }
  }

  /** A round from a state on which the quote rule fires, with no `<!--` at the cursor, leads to another such state. */
  lemma QuoteStep(s: string, lt: int)
    requires Unclosed(s, lt) && !MatchAt(s, "<!--", lt) && MarkupRepair.QuoteRule(s[..lt + 1])
    ensures var x := StepAsWritten(Legacy, s, lt);
      Unclosed(x.0, x.1) && !MatchAt(x.0, "<!--", x.1) && MarkupRepair.QuoteRule(x.0[..x.1 + 1])
  {
    var inner := s[..lt + 1];
    LegacyMisplacedPatch(s, lt);
    MarkupRepair.QuoteFixRule(inner);
    MisplacedPatch(Legacy, s, lt);
    var s' := "\"" + s;
    PrependedCursor(s, lt, "\"");
    MatchShiftBy("\"", s, "<!--", lt);
    MatchChar(inner, '<', lt);
    IncludesMeansOccurs(inner, "<");
    MarkupRepair.PatchRules(inner);
    MarkupRepair.QuoteKeepsFiring(inner);
    assert s'[..lt + 2] == "\"" + inner;
    MarkupRepair.PatchRules("\"" + inner);
  }

  /** Every misplacing round of the older loop is a `LegacyLoops` state. */
  lemma LegacyMisplacedLoops(x: State)
    requires Misplaced(Legacy, x.0, x.1)
    ensures LegacyLoops(x.0, x.1)
  {
    LegacyMisplacedPatch(x.0, x.1);
    if !MatchAt(x.0, "<!--", x.1) {
      MarkupRepair.QuoteFixRule(x.0[..x.1 + 1]);
    }
  }

  /** A round of the older loop as written never leaves the states of `LegacyLoops`. */
  lemma LegacyLoopsClosed(s: string, lt: int)
    requires LegacyLoops(s, lt)
    ensures var y := StepAsWritten(Legacy, s, lt); LegacyLoops(y.0, y.1)
  {
    if CommentAhead(s, lt) {
      AheadStep(s, lt);
    } else {
      QuoteStep(s, lt);
    }
  }

  /** The older loop as written never leaves the states of `LegacyLoops`, and every misplacing round enters one. */
  lemma LegacyTraps()
    ensures Traps(Legacy, (x: State) => LegacyLoops(x.0, x.1))
  {
    forall x: State | Misplaced(Legacy, x.0, x.1) ensures LegacyLoops(x.0, x.1) {
      LegacyMisplacedLoops(x);
    }
    forall x: State | LegacyLoops(x.0, x.1)
      ensures LegacyLoops(BodyAsWritten(Legacy)(x).0, BodyAsWritten(Legacy)(x).1)
    {
      LegacyLoopsClosed(x.0, x.1);
      assert BodyAsWritten(Legacy)(x) == StepAsWritten(Legacy, x.0, x.1);
    }
  }

  /**
   * Wherever the older loop as written stops, it has computed the corrected
   * repair; it only differs by not stopping.
   */
  lemma LegacyWrittenLoopAgrees(s: string, n: nat)
    ensures var st := Iterate(BodyAsWritten(Legacy), (s, IndexOf(s, "<", 0)), n);
      st.1 == -1 ==> st.0 == Repaired(Legacy, s)
  {
    LegacyTraps();
    TrapsDiverge(Legacy, (x: State) => LegacyLoops(x.0, x.1));
    WrittenRepairAgrees(Legacy, s, n);
  }

  /**
   * `<<!--` keeps the older loop as written busy for ever as well, with the
   * cursor moving between the two `<`, while the corrected repair leaves it
   * unchanged.
   */
  lemma LegacyDoubleOpen(s: string)
    requires s == "<<!--"
    ensures forall n: nat :: Iterate(BodyAsWritten(Legacy), (s, IndexOf(s, "<", 0)), n).1 != -1
    ensures !LegacyStuck(s, 1)
    ensures StepAsWritten(Legacy, s, 0) == (s, 1)
    ensures StepAsWritten(Legacy, s, 1) == ("--" + s, 2)
    ensures Repaired(Legacy, s) == s
  {
    IndexOfChar(s, '<', 0, 0);
    IndexOfAbsent(s, '>', 0);
    assert s[1..5] == "<!--";
    assert MatchAt(s, "<!--", 1);
    assert LegacyLoops(s, 0);
    LegacyTraps();
    forall n: nat ensures Iterate(BodyAsWritten(Legacy), (s, 0), n).1 != -1 {
      NeverExits(BodyAsWritten(Legacy), (x: State) => LegacyLoops(x.0, x.1), (s, 0), n);
    }
    DoubleOpenRounds(s);
    DoubleOpenRepair(s);
  }

  lemma DoubleOpenRounds(s: string)
    requires s == "<<!--"
    ensures StepAsWritten(Legacy, s, 0) == (s, 1)
    ensures StepAsWritten(Legacy, s, 1) == ("--" + s, 2)
  {
    IndexOfAbsent(s, '>', 0);
    IndexOfAbsent(s, '>', 1);
    assert s[0..4] != "<!--" by { assert s[0..4][1] == '<'; }
    assert s[1..5] == "<!--";
    assert Unclosed(s, 0) && Unclosed(s, 1);
    LegacyMisplacedPatch(s, 0);
    LegacyMisplacedPatch(s, 1);
    QuoteFixNone(s[..1]);
    MisplacedPatch(Legacy, s, 0);
    MisplacedPatch(Legacy, s, 1);
    IndexOfChar(s, '<', 1, 1);
    IndexOfChar("--" + s, '<', 2, 2);
  }

  /** A tag text with no `=` gets no quote. */
  lemma QuoteFixNone(inner: string)
    requires forall k :: 0 <= k < |inner| ==> inner[k] != '='
    ensures MarkupRepair.QuoteFix(inner) == ""
  {
    forall j ensures !MatchAt(inner, "=\"", j) {
      if 0 <= j && j + 2 <= |inner| {
        assert inner[j..j + 2][0] == inner[j];
      }
    }
  }

  lemma DoubleOpenRepair(s: string)
    requires s == "<<!--"
    ensures Repaired(Legacy, s) == s
  {
    IndexOfChar(s, '<', 0, 0);
    IndexOfAbsent(s, '>', 0);
    IndexOfAbsent(s, '>', 1);
    IndexOfChar(s, '<', 1, 1);
    IndexOfAbsent(s, '<', 2);
    assert Step(Legacy, s, 0) == (s, 1);
    assert Step(Legacy, s, 1) == (s, -1);
    assert RepairFrom(Legacy, s, 0) == RepairFrom(Legacy, s, 1);
    assert RepairFrom(Legacy, s, 1) == RepairFrom(Legacy, s, -1);
  }

  /** `<!-- a <b> -->` gets `--` before its first `>` from the older rule (no inner-`<` check). */
  lemma LegacyIgnoresInnerTag(s: string)
    requires s == "<!-- a <b> -->"
    ensures LegacyPatch(s, 0, 9) == "--"
    ensures MarkupRepair.Patch(Substring(s, 1, 9)) == ""
  {
    assert s[0..4] == "<!--";
    IndexOfIs(s, "<!--", 0, 0);
    assert s[7] == '<';
    IndexOfChar(s, '>', 0, 9);
    FirstCommentEnd(s, 0, 9);
    NewerSkipsInnerTag(Substring(s, 1, 9));
  }

  lemma NewerSkipsInnerTag(inner: string)
    requires inner == "!-- a <b"
    ensures MarkupRepair.Patch(inner) == ""
  {
    IndexOfChar(inner, '<', 0, 6);
    assert !MarkupRepair.CommentRule(inner);
    forall j | 0 <= j < |inner| ensures inner[j] != '=' {
    }
    forall j ensures !MatchAt(inner, "=\"", j) {
      if 0 <= j && j + 2 <= |inner| {
        assert inner[j..j + 2][0] == inner[j];
      }
    }
    assert LastIndexOf(inner, "=\"") == -1;
  }
}
