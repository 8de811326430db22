/**
 * The cursor loop shared by both generations of the pre-parse markup repair:
 * a cursor visits every `<` of a growing text and a rule chooses the text to
 * insert before the `>` that closes the tag.
 */
module RepairLoop {
  import opened JsString
  import opened Insertions
  import opened Rounds

  /** The characters a repair rule ever inserts. */
  const Fill: set<char> := {'-', '"'}

  /** A patch: at most two fill characters. */
  predicate FillOnly(p: string) {
    |p| <= 2 && forall i :: 0 <= i < |p| ==> p[i] in Fill
  }

  /**
   * A repair rule: given the text, the cursor's `<` and the index of the
   * next `>` (-1 when there is none), the text to insert before that `>`.
   */
  type Rule = rule: (string, int, int) -> string | forall s, lt, gt :: FillOnly(rule(s, lt, gt))
    witness (s: string, lt: int, gt: int) => ""

  /** The number of `<` in `t`. */
  function Opens(t: string): nat {
    multiset(t)['<']
  }

  /** One round of the loop body exactly as written, from the `<` at `lt`. */
  function StepAsWritten(rule: Rule, s: string, lt: int): State {
    var gt := IndexOf(s, ">", lt);
    var patch := rule(s, lt, gt);
    var s' := if patch == "" then s else Substring(s, 0, gt) + patch + Substring(s, gt, |s|);
    (s', IndexOf(s', "<", lt + 1))
  }

  /** The loop body as written, on loop states. */
  function BodyAsWritten(rule: Rule): State -> State {
    (st: State) => StepAsWritten(rule, st.0, st.1)
  }

  /** The first `>` after the `<` at `lt`, or -1. */
  function CloseOf(s: string, lt: nat): (gt: int)
    requires lt < |s| && s[lt] == '<'
    ensures gt == -1 || (lt < gt < |s| && s[gt] == '>')
    ensures gt == IndexOf(s, ">", lt)
  {
    var gt := IndexOf(s, ">", lt);
    MatchChar(s, '<', lt);
    if gt != -1 then MatchChar(s, '>', gt); gt else gt
  }

  /**
   * One round of the loop body, skipping a `<` that no `>` follows: the
   * patch goes immediately before the first `>` after `lt`, and the cursor
   * moves to the next `<`.
   */
  function Step(rule: Rule, s: string, lt: nat): (r: State)
    requires lt < |s| && s[lt] == '<'
    ensures r.1 == -1 || (lt < r.1 < |r.0| && r.0[r.1] == '<')
  {
    var gt := CloseOf(s, lt);
    var s' := if gt == -1 then s else s[..gt] + rule(s, lt, gt) + s[gt..];
    var c := IndexOf(s', "<", lt + 1);
    CursorFacts(s', lt, c);
    (s', c)
  }

  /** Where a `>` follows, the corrected round is the round as written. */
  lemma StepAgrees(rule: Rule, s: string, lt: nat)
    requires lt < |s| && s[lt] == '<' && IndexOf(s, ">", lt) != -1
    ensures StepAsWritten(rule, s, lt) == Step(rule, s, lt)
  {
    var gt := CloseOf(s, lt);
    var p := rule(s, lt, gt);
    var s' := s[..gt] + p + s[gt..];
    if p == "" {
      assert s' == s;
    } else {
      assert Substring(s, 0, gt) == s[..gt];
      assert Substring(s, gt, |s|) == s[gt..];
    }
    assert StepAsWritten(rule, s, lt).0 == s';
  }

  /**
   * With no `>` after the cursor, `substring(0, -1)` is `substring(-1, 0)`:
   * the patch lands at the very start of the text, not before a `>`.
   */
  lemma MisplacedPatch(rule: Rule, s: string, lt: nat)
    requires lt < |s| && IndexOf(s, ">", lt) == -1
    ensures StepAsWritten(rule, s, lt).0 == rule(s, lt, -1) + s
  {
    assert Substring(s, 0, -1) == [];
    assert Substring(s, -1, |s|) == s;
  }

  /** The loop body's splice, in terms of slices. */
  lemma SpliceIs(rule: Rule, s: string, lt: nat, gt: int)
    requires lt < |s| && s[lt] == '<' && gt == IndexOf(s, ">", lt) && gt != -1
    ensures lt < gt <= |s| && Substring(s, lt + 1, gt) == s[lt + 1..gt]
    ensures forall p :: Substring(s, 0, gt) + p + Substring(s, gt, |s|) == s[..gt] + p + s[gt..]
    ensures Step(rule, s, lt).0 == s[..gt] + rule(s, lt, gt) + s[gt..]
    ensures rule(s, lt, gt) == "" ==> Step(rule, s, lt).0 == s
  {
    SpliceSlices(s, lt, gt);
    SpliceStep(rule, s, lt, gt);
  }

  lemma SpliceSlices(s: string, lt: nat, gt: int)
    requires lt < |s| && s[lt] == '<' && gt == IndexOf(s, ">", lt) && gt != -1
    ensures lt < gt <= |s|
    ensures Substring(s, lt + 1, gt) == s[lt + 1..gt]
    ensures Substring(s, 0, gt) == s[..gt] && Substring(s, gt, |s|) == s[gt..]
  {
    var g := CloseOf(s, lt);
  }

  lemma SpliceStep(rule: Rule, s: string, lt: nat, gt: int)
    requires lt < |s| && s[lt] == '<' && gt == IndexOf(s, ">", lt) && gt != -1
    ensures Step(rule, s, lt).0 == s[..gt] + rule(s, lt, gt) + s[gt..]
    ensures rule(s, lt, gt) == "" ==> Step(rule, s, lt).0 == s
  {
    var g := CloseOf(s, lt);
    assert s[..gt] + [] + s[gt..] == s;
  }

  /** The next-`<` search, in terms of characters. */
  lemma CursorFacts(s: string, lt: nat, c: int)
    requires c == IndexOf(s, "<", lt + 1)
    ensures c == -1 || (lt < c < |s| && s[c] == '<')
    ensures c != -1 ==> forall k :: lt < k < c ==> s[k] != '<'
    ensures c == -1 ==> forall k :: lt < k < |s| ==> s[k] != '<'
  {
    if c != -1 {
      MatchChar(s, '<', c);
      forall k | lt < k < c ensures s[k] != '<' {
        MatchChar(s, '<', k);
      }
    } else {
      forall k | lt < k < |s| ensures s[k] != '<' {
        MatchChar(s, '<', k);
      }
    }
  }

  /** A text with no `<` counts none. */
  lemma NoOpens(t: string)
    requires forall k :: 0 <= k < |t| ==> t[k] != '<'
    ensures Opens(t) == 0
  {
    assert '<' !in t;
  }

  /** A round only inserts fill, adds at most two characters, and keeps every `<` from the cursor on. */
  lemma StepFacts(rule: Rule, s: string, lt: nat)
    requires lt < |s| && s[lt] == '<'
    ensures Pads(s, Step(rule, s, lt).0, Fill)
    ensures |Step(rule, s, lt).0| <= |s| + 2
    ensures Opens(Step(rule, s, lt).0[lt..]) == Opens(s[lt..])
    ensures Opens(Step(rule, s, lt).0) == Opens(s)
  {
    var gt := CloseOf(s, lt);
    if gt == -1 {
      PadsReflexive(s, Fill);
    } else {
      var p := rule(s, lt, gt);
      InsertFacts(s, lt, gt, p);
    }
  }

  /** Inserting fill keeps the count of `<`, also from any point before the insertion. */
  lemma InsertFacts(s: string, lt: nat, gt: nat, p: string)
    requires lt < gt <= |s|
    requires FillOnly(p)
    ensures Pads(s, s[..gt] + p + s[gt..], Fill)
    ensures Opens((s[..gt] + p + s[gt..])[lt..]) == Opens(s[lt..])
    ensures Opens(s[..gt] + p + s[gt..]) == Opens(s)
  {
    InsertPads(s, gt, p);
    assert '<' !in p;
    InsertOpens(s, lt, gt, p);
  }

  lemma InsertPads(s: string, gt: nat, p: string)
    requires gt <= |s|
    requires FillOnly(p)
    ensures Pads(s, s[..gt] + p + s[gt..], Fill)
  {
    var x, y := s[..gt], s[gt..];
    PadsInsert(x, p, y, Fill);
    assert x + y == s;
  }

  lemma InsertOpens(s: string, lt: nat, gt: nat, p: string)
    requires lt < gt <= |s|
    requires Opens(p) == 0
    ensures Opens((s[..gt] + p + s[gt..])[lt..]) == Opens(s[lt..])
    ensures Opens(s[..gt] + p + s[gt..]) == Opens(s)
  {
    var r := s[..gt] + p + s[gt..];
    assert r[lt..] == s[lt..gt] + p + s[gt..];
    assert s[lt..] == s[lt..gt] + s[gt..];
    assert s == s[..gt] + s[gt..];
  }

  /** The number of `<` from the cursor on drops at each round, so the loop terminates. */
  lemma StepDecreases(rule: Rule, s: string, lt: nat)
    requires lt < |s| && s[lt] == '<'
    ensures Step(rule, s, lt).1 != -1 ==>
      Opens(Step(rule, s, lt).0[Step(rule, s, lt).1..]) < Opens(s[lt..])
  {
    var r := Step(rule, s, lt);
    StepFacts(rule, s, lt);
    if r.1 != -1 {
      StepKeepsCursor(rule, s, lt);
      CursorFacts(r.0, lt, r.1);
      SkipToNext(r.0, lt, r.1);
    }
  }

  /** The `<` under the cursor stays where it is. */
  lemma StepKeepsCursor(rule: Rule, s: string, lt: nat)
    requires lt < |s| && s[lt] == '<'
    ensures lt < |Step(rule, s, lt).0| && Step(rule, s, lt).0[lt] == '<'
  {
    var gt := CloseOf(s, lt);
    if gt != -1 {
      var p := rule(s, lt, gt);
      assert Step(rule, s, lt).0 == s[..gt] + p + s[gt..];
      assert (s[..gt] + p + s[gt..])[lt] == s[..gt][lt];
    }
  }

  /** Moving from one `<` past a gap to the next one leaves fewer `<` ahead. */
  lemma SkipToNext(t: string, lt: nat, c: nat)
    requires lt < c < |t| && t[lt] == '<'
    requires forall k :: lt < k < c ==> t[k] != '<'
    ensures Opens(t[c..]) < Opens(t[lt..])
  {
    assert t[lt..] == [t[lt]] + t[lt + 1..c] + t[c..];
    NoOpens(t[lt + 1..c]);
  }

  /** The repair from the cursor `lt` on (-1: finished). */
  function RepairFrom(rule: Rule, s: string, lt: int): string
    requires lt == -1 || (0 <= lt < |s| && s[lt] == '<')
    decreases if lt == -1 then 0 else Opens(s[lt..])
  {
    if lt == -1 then s
    else
      var (s', c) := Step(rule, s, lt);
      StepDecreases(rule, s, lt);
      RepairFrom(rule, s', c)
  }

  /** The whole repair, started at the first `<`. */
  function Repaired(rule: Rule, markup: string): string {
    var lt := IndexOf(markup, "<", 0);
    CursorStart(markup, lt);
    RepairFrom(rule, markup, lt)
  }

  /** The first cursor stands on the first `<`, so every `<` lies at or after it. */
  lemma CursorStart(s: string, lt: int)
    requires lt == IndexOf(s, "<", 0)
    ensures lt == -1 || (0 <= lt < |s| && s[lt] == '<')
    ensures lt == -1 ==> Opens(s) == 0
    ensures lt != -1 ==> Opens(s[lt..]) == Opens(s)
  {
    if lt != -1 {
      FirstOpen(s, lt);
    } else {
      forall k | 0 <= k < |s| ensures s[k] != '<' {
        MatchChar(s, '<', k);
      }
      NoOpens(s);
    }
  }

  /** No `<` stands before the first one. */
  lemma FirstOpen(s: string, lt: int)
    requires lt == IndexOf(s, "<", 0) && lt != -1
    ensures 0 <= lt < |s| && s[lt] == '<'
    ensures Opens(s[lt..]) == Opens(s)
  {
    MatchChar(s, '<', lt);
    forall k | 0 <= k < lt ensures s[..lt][k] != '<' {
      MatchChar(s, '<', k);
    }
    NoOpens(s[..lt]);
    assert s == s[..lt] + s[lt..];
    assert multiset(s) == multiset(s[..lt]) + multiset(s[lt..]);
  }

  /** From a cursor on, the repair only inserts fill, by induction on the rounds. */
  lemma {:induction false} RepairFromPads(rule: Rule, s: string, lt: int)
    requires lt == -1 || (0 <= lt < |s| && s[lt] == '<')
    ensures Pads(s, RepairFrom(rule, s, lt), Fill)
    decreases if lt == -1 then 0 else Opens(s[lt..])
  {
    if lt == -1 {
      PadsReflexive(s, Fill);
    } else {
      var r := Step(rule, s, lt);
      StepFacts(rule, s, lt);
      StepDecreases(rule, s, lt);
      RepairFromPads(rule, r.0, r.1);
      assert RepairFrom(rule, s, lt) == RepairFrom(rule, r.0, r.1);
      PadsTransitive(s, r.0, RepairFrom(rule, r.0, r.1), Fill);
    }
  }

  /** From a cursor on, the repair keeps every `<`. */
  lemma {:induction false} RepairFromOpens(rule: Rule, s: string, lt: int)
    requires lt == -1 || (0 <= lt < |s| && s[lt] == '<')
    ensures Opens(RepairFrom(rule, s, lt)) == Opens(s)
    decreases if lt == -1 then 0 else Opens(s[lt..])
  {
    if lt != -1 {
      var r := Step(rule, s, lt);
      StepFacts(rule, s, lt);
      StepDecreases(rule, s, lt);
      RepairFromOpens(rule, r.0, r.1);
      assert RepairFrom(rule, s, lt) == RepairFrom(rule, r.0, r.1);
    }
  }

  /** From a cursor on, the repair adds at most two characters per `<` ahead. */
  lemma {:induction false} RepairFromLength(rule: Rule, s: string, lt: int)
    requires lt == -1 || (0 <= lt < |s| && s[lt] == '<')
    ensures |RepairFrom(rule, s, lt)| <= |s| + 2 * (if lt == -1 then 0 else Opens(s[lt..]))
    decreases if lt == -1 then 0 else Opens(s[lt..])
  {
    if lt != -1 {
      var r := Step(rule, s, lt);
      StepGrowth(rule, s, lt);
      RepairFromLength(rule, r.0, r.1);
      assert RepairFrom(rule, s, lt) == RepairFrom(rule, r.0, r.1);
    }
  }

  /** A round adds at most two characters and uses up the `<` it stands on. */
  lemma StepGrowth(rule: Rule, s: string, lt: nat)
    requires lt < |s| && s[lt] == '<'
    ensures |Step(rule, s, lt).0| <= |s| + 2 && Opens(s[lt..]) >= 1
    ensures Step(rule, s, lt).1 != -1 ==>
      Opens(Step(rule, s, lt).0[Step(rule, s, lt).1..]) < Opens(s[lt..])
  {
    StepFacts(rule, s, lt);
    StepDecreases(rule, s, lt);
    assert s[lt..] == [s[lt]] + s[lt + 1..];
  }

  /** The repair only inserts `-` and `"` characters; it never deletes or changes one. */
  lemma RepairOnlyInserts(rule: Rule, markup: string)
    ensures Pads(markup, Repaired(rule, markup), Fill)
  {
    CursorStart(markup, IndexOf(markup, "<", 0));
    RepairFromPads(rule, markup, IndexOf(markup, "<", 0));
  }

  /** The repair keeps every tag, and inserts at most two characters per `<`. */
  lemma RepairBounds(rule: Rule, markup: string)
    ensures Opens(Repaired(rule, markup)) == Opens(markup)
    ensures |markup| <= |Repaired(rule, markup)| <= |markup| + 2 * Opens(markup)
  {
    CursorStart(markup, IndexOf(markup, "<", 0));
    RepairFromOpens(rule, markup, IndexOf(markup, "<", 0));
    RepairFromLength(rule, markup, IndexOf(markup, "<", 0));
    RepairFromPads(rule, markup, IndexOf(markup, "<", 0));
    PadsLength(markup, Repaired(rule, markup), Fill);
  }

  /** A text holding a single tag, `<` first and `>` last, gets at most one patch, before its `>`. */
  lemma SingleTag(rule: Rule, s: string)
    requires |s| >= 2 && s[0] == '<' && s[|s| - 1] == '>'
    requires forall k :: 0 < k < |s| ==> s[k] != '<'
    requires forall k :: 0 < k < |s| - 1 ==> s[k] != '>'
    ensures Repaired(rule, s) == s[..|s| - 1] + rule(s, 0, |s| - 1) + ">"
  {
    var n := |s| - 1;
    IndexOfChar(s, '<', 0, 0);
    IndexOfChar(s, '>', 0, n);
    var p := rule(s, 0, n);
    var s' := s[..n] + p + s[n..];
    assert s[n..] == ">";
    forall k | 0 < k < |s'| ensures s'[k] != '<' {
      if k < n {
        assert s'[k] == s[k];
      } else if k < n + |p| {
        assert s'[k] == p[k - n];
      }
    }
    IndexOfAbsent(s', '<', 1);
    assert Step(rule, s, 0) == (s', -1);
    assert RepairFrom(rule, s, 0) == RepairFrom(rule, s', -1);
  }

  /** The corrected repair leaves a last `<` with no `>` after it as it is. */
  lemma UnclosedLeftAlone(rule: Rule, s: string, lt: nat)
    requires lt < |s| && s[lt] == '<' && lt == IndexOf(s, "<", 0)
    requires forall k :: lt < k < |s| ==> s[k] != '<' && s[k] != '>'
    ensures Repaired(rule, s) == s
  {
    IndexOfAbsent(s, '>', lt);
    IndexOfAbsent(s, '<', lt + 1);
    assert Step(rule, s, lt) == (s, -1);
    assert RepairFrom(rule, s, lt) == RepairFrom(rule, s, -1);
  }
  /** The cursor's `<` has no `>` anywhere after it. */
  predicate Unclosed(s: string, lt: int) {
    0 <= lt < |s| && s[lt] == '<' && IndexOf(s, ">", lt) == -1
  }

  /**
   * A round in which the loop as written goes wrong: no `>` follows the
   * cursor, yet the rule asks for a patch, which then lands at index 0.
   */
  predicate Misplaced(rule: Rule, s: string, lt: int) {
    Unclosed(s, lt) && rule(s, lt, -1) != ""
  }

  /** A round that misplaces nothing is the corrected round. */
  lemma StepOrSkip(rule: Rule, s: string, lt: nat)
    requires lt < |s| && s[lt] == '<' && !Misplaced(rule, s, lt)
    ensures StepAsWritten(rule, s, lt) == Step(rule, s, lt)
  {
    if IndexOf(s, ">", lt) != -1 {
      StepAgrees(rule, s, lt);
    }
  }

  /**
   * A patch put in front of the text with no `>` after the cursor moves the
   * cursor's `<` on by the patch's length; the next cursor is a `<` at most
   * that far on, and no `>` follows it either.
   */
  lemma PrependedCursor(s: string, lt: nat, p: string)
    requires Unclosed(s, lt) && FillOnly(p) && p != ""
    ensures var c := IndexOf(p + s, "<", lt + 1);
      lt < c <= lt + |p| && Unclosed(p + s, c)
  {
    var t := p + s;
    var c := IndexOf(t, "<", lt + 1);
    assert t[lt + |p|] == s[lt];
    MatchChar(t, '<', lt + |p|);
    MatchChar(t, '<', c);
    forall k | lt <= k < |s| ensures s[k] != '>' {
      MatchChar(s, '>', k);
    }
    forall k | c <= k < |t| ensures t[k] != '>' {
      if k < |p| {
        assert t[k] == p[k] && p[k] in Fill;
      } else if k < lt + |p| {
        assert k == c;
      } else {
        assert t[k] == s[k - |p|];
      }
    }
    IndexOfAbsent(t, '>', c);
  }

  /**
   * `stuck` is a family of states that every misplacing round enters, that
   * the loop as written never leaves, and in which the cursor is never -1.
   */
  ghost predicate Traps(rule: Rule, stuck: State -> bool) {
    && (forall x: State :: Misplaced(rule, x.0, x.1) ==> stuck(x))
    && (forall x :: stuck(x) ==> stuck(BodyAsWritten(rule)(x)))
    && (forall x :: stuck(x) ==> x.1 != -1)
  }

  /** From `st` on, the loop as written never stops. */
  ghost predicate Diverges(rule: Rule, st: State) {
    forall m: nat :: Iterate(BodyAsWritten(rule), st, m).1 != -1
  }

  /** Every round that misplaces its patch leaves the loop as written running for ever. */
  ghost predicate MisplacingDiverges(rule: Rule) {
    forall x: State :: Misplaced(rule, x.0, x.1) ==> Diverges(rule, x)
  }

  /** A trap family that catches every misplacing round makes each of them diverge. */
  lemma TrapsDiverge(rule: Rule, stuck: State -> bool)
    requires Traps(rule, stuck)
    ensures MisplacingDiverges(rule)
  {
    forall x: State | Misplaced(rule, x.0, x.1) ensures Diverges(rule, x) {
      forall m: nat ensures Iterate(BodyAsWritten(rule), x, m).1 != -1 {
        NeverExits(BodyAsWritten(rule), stuck, x, m);
      }
    }
  }

  /**
   * A loop body that runs every round the corrected way except those that
   * misplace their patch, and those never stop: wherever it stops, it has
   * computed the corrected repair.
   */
  lemma {:induction false} RunAgrees(rule: Rule, body: State -> State, st: State, n: nat)
    requires st.1 == -1 || (0 <= st.1 < |st.0| && st.0[st.1] == '<')
    requires forall x: State :: 0 <= x.1 < |x.0| && x.0[x.1] == '<' && !Misplaced(rule, x.0, x.1) ==>
      body(x) == Step(rule, x.0, x.1)
    requires forall x: State :: Misplaced(rule, x.0, x.1) ==> forall m: nat :: Iterate(body, x, m).1 != -1
    ensures Iterate(body, st, n).1 == -1 ==> Iterate(body, st, n).0 == RepairFrom(rule, st.0, st.1)
    decreases n
  {
    if n > 0 && st.1 != -1 {
      if Misplaced(rule, st.0, st.1) {
        assert Iterate(body, st, n).1 != -1;
      } else {
        var next := Step(rule, st.0, st.1);
        assert body(st) == next;
        assert Iterate(body, st, n) == Iterate(body, next, n - 1);
        RunAgrees(rule, body, next, n - 1);
        RepairFromRound(rule, st.0, st.1);
      }
    }
  }

  /** The corrected repair from a cursor is the repair from the next cursor. */
  lemma RepairFromRound(rule: Rule, s: string, lt: nat)
    requires lt < |s| && s[lt] == '<'
    ensures RepairFrom(rule, s, lt) == RepairFrom(rule, Step(rule, s, lt).0, Step(rule, s, lt).1)
  {
    StepDecreases(rule, s, lt);
  }

  /**
   * Where every misplacing round diverges, a run of the loop as written
   * that stops has computed the corrected repair.
   */
  lemma WrittenRepairAgrees(rule: Rule, s: string, n: nat)
    requires MisplacingDiverges(rule)
    ensures var st := Iterate(BodyAsWritten(rule), (s, IndexOf(s, "<", 0)), n);
      st.1 == -1 ==> st.0 == Repaired(rule, s)
  {
    var body := BodyAsWritten(rule);
    forall x: State | 0 <= x.1 < |x.0| && x.0[x.1] == '<' && !Misplaced(rule, x.0, x.1)
      ensures body(x) == Step(rule, x.0, x.1)
    {
      StepOrSkip(rule, x.0, x.1);
    }
    forall x: State | Misplaced(rule, x.0, x.1) ensures forall m: nat :: Iterate(body, x, m).1 != -1 {
      assert Diverges(rule, x);
    }
    CursorStart(s, IndexOf(s, "<", 0));
    RunAgrees(rule, body, (s, IndexOf(s, "<", 0)), n);
  }
}
