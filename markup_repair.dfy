/**
 * The pre-parse markup repair of the newer viewer: before the `>` that
 * closes a tag it inserts `--` (an unterminated comment) or `"` (an
 * unterminated attribute value).
 */
module MarkupRepair {
  import opened JsString
  import opened Rounds
  import opened RepairLoop

  /**
   * The text inserted before the `>` that ends a tag whose text after its
   * `<` is `inner`: `--` ends a comment, `"` ends an attribute value.
   */
  function Patch(inner: string): (r: string)
    ensures FillOnly(r)
  {
    if CommentRule(inner) then "--" else QuoteFix(inner)
  }

  /** The quote fix on its own, shared with the older viewer. */
  function QuoteFix(inner: string): (r: string)
    ensures FillOnly(r)
  {
    var attributeStart := LastIndexOf(inner, "=\"");
    if attributeStart != -1 && IndexOf(inner, "\"", attributeStart + 2) == -1 then "\"" else ""
  }

  /** The newer rule: the patch for the text between the `<` and the next `>`. */
  const Newer: Rule := (s: string, lt: int, gt: int) => Patch(Substring(s, lt + 1, gt))

  /** The comment rule: the tag text opens a comment, does not end one and holds no `<`. */
  predicate CommentRule(inner: string) {
    StartsWith(inner, "!--") && !EndsWith(inner, "--") && !Includes(inner, "<")
  }

  /** The quote rule: the last `="` in the tag text has no `"` after it. */
  predicate QuoteRule(inner: string) {
    var a := LastIndexOf(inner, "=\"");
    a != -1 && forall k :: a + 2 <= k < |inner| ==> inner[k] != '"'
  }

  /** The quote fix adds `"` exactly when the quote rule holds. */
  lemma QuoteFixRule(inner: string)
    ensures QuoteFix(inner) == (if QuoteRule(inner) then "\"" else "")
  {
    var a := LastIndexOf(inner, "=\"");
    if a != -1 {
      var q := IndexOf(inner, "\"", a + 2);
      if q != -1 {
        MatchChar(inner, '"', q);
      } else {
        forall k | a + 2 <= k < |inner| ensures inner[k] != '"' {
          MatchChar(inner, '"', k);
        }
      }
    }
  }

  /** The comment rule decides first; the quote rule applies only where it does not. */
  lemma PatchRules(inner: string)
    ensures Patch(inner) == "--" <==> CommentRule(inner)
    ensures Patch(inner) == "\"" <==> !CommentRule(inner) && QuoteRule(inner)
    ensures Patch(inner) == "" <==> !CommentRule(inner) && !QuoteRule(inner)
  {
    QuoteFixRule(inner);
  }

  /** One visit of the loop: the patch for the tag whose `<` is at `lessThan`. */
  method RepairTag(markup: string, lessThan: nat) returns (pageMarkup: string)
    requires lessThan < |markup| && markup[lessThan] == '<'
    ensures pageMarkup == Step(Newer, markup, lessThan).0
  {
    pageMarkup := markup;
    var greaterThan := IndexOf(pageMarkup, ">", lessThan);
    var innerElement := Substring(pageMarkup, lessThan + 1, greaterThan);
    if greaterThan == -1 {
      assert CloseOf(pageMarkup, lessThan) == -1;
    } else {
      SpliceIs(Newer, pageMarkup, lessThan, greaterThan);
      if StartsWith(innerElement, "!--") && !EndsWith(innerElement, "--") && !Includes(innerElement, "<") {
        pageMarkup := Substring(pageMarkup, 0, greaterThan) + "--" + Substring(pageMarkup, greaterThan, |pageMarkup|);
      } else {
        var attributeStart := LastIndexOf(innerElement, "=\"");
        if attributeStart != -1 && IndexOf(innerElement, "\"", attributeStart + 2) == -1 {
          pageMarkup := Substring(pageMarkup, 0, greaterThan) + "\"" + Substring(pageMarkup, greaterThan, |pageMarkup|);
        }
      }
    }
  }

  /** The repair loop; a `<` that no `>` follows is left alone (see `StuckForever`). */
  method RepairMarkup(markup: string) returns (pageMarkup: string)
    ensures pageMarkup == Repaired(Newer, markup)
  {
    pageMarkup := markup;
    var lessThan := IndexOf(pageMarkup, "<", 0);
    CursorStart(pageMarkup, lessThan);
    while lessThan != -1
      invariant lessThan == -1 || (0 <= lessThan < |pageMarkup| && pageMarkup[lessThan] == '<')
      invariant RepairFrom(Newer, pageMarkup, lessThan) == Repaired(Newer, markup)
      decreases if lessThan == -1 then 0 else Opens(pageMarkup[lessThan..])
    {
      ghost var before := pageMarkup;
      pageMarkup := RepairTag(pageMarkup, lessThan);
      StepDecreases(Newer, before, lessThan);
      lessThan := IndexOf(pageMarkup, "<", lessThan + 1);
    }
  }

  /** `<!-- note >` becomes `<!-- note -->`. */
  lemma CommentExample(s: string)
    requires s == "<!-- note >"
    ensures Repaired(Newer, s) == "<!-- note -->"
  {
    CommentPatch(s);
    SingleTag(Newer, s);
    assert s[..10] == "<!-- note ";
    assert s[..10] + "--" + ">" == "<!-- note -->";
  }

  lemma CommentPatch(s: string)
    requires s == "<!-- note >"
    ensures Newer(s, 0, 10) == "--"
  {
    var inner := Substring(s, 1, 10);
    assert inner == s[1..10];
    assert inner == "!-- note ";
    IndexOfAbsent(inner, '<', 0);
    assert inner[0] == '!' && inner[1] == '-' && inner[2] == '-';
    StartsThree(inner, '!', '-', '-');
    assert inner[|inner| - 1] == ' ';
    LastCharDiffers(inner, "--");
  }

  /** `<a href="foo>` becomes `<a href="foo">`. */
  lemma QuoteExample(s: string)
    requires s == "<a href=\"foo>"
    ensures Repaired(Newer, s) == "<a href=\"foo\">"
  {
    QuotePatch(s);
    SingleTag(Newer, s);
    assert s[..12] == "<a href=\"foo";
    assert s[..12] + "\"" + ">" == "<a href=\"foo\">";
  }

  lemma QuotePatch(s: string)
    requires s == "<a href=\"foo>"
    ensures Newer(s, 0, 12) == "\""
  {
    var inner := Substring(s, 1, 12);
    assert inner == s[1..12];
    assert inner == "a href=\"foo";
    assert inner[0] != '!';
    assert inner[6] == '=' && inner[7] == '"';
    MatchTwo(inner, '=', '"', 6);
    LastIndexOfHead(inner, "=\"", 6);
    IndexOfAbsent(inner, '"', 8);
  }

  /** A second pass can patch again: the repair is not idempotent. */
  lemma NotIdempotent(s: string)
    requires s == "<!-- x=\"y >"
    ensures Repaired(Newer, s) == "<!-- x=\"y -->"
    ensures Repaired(Newer, Repaired(Newer, s)) == "<!-- x=\"y --\">"
  {
    FirstPass(s);
    SecondPass(Repaired(Newer, s));
  }

  lemma FirstPass(s: string)
    requires s == "<!-- x=\"y >"
    ensures Repaired(Newer, s) == "<!-- x=\"y -->"
  {
    FirstPatch(s);
    SingleTag(Newer, s);
    assert s[..10] == "<!-- x=\"y ";
    assert s[..10] + "--" + ">" == "<!-- x=\"y -->";
  }

  lemma SecondPass(once: string)
    requires once == "<!-- x=\"y -->"
    ensures Repaired(Newer, once) == "<!-- x=\"y --\">"
  {
    SecondPatch(once);
    SingleTag(Newer, once);
    assert once[..12] == "<!-- x=\"y --";
    assert once[..12] + "\"" + ">" == "<!-- x=\"y --\">";
  }

  lemma FirstPatch(s: string)
    requires s == "<!-- x=\"y >"
    ensures Newer(s, 0, 10) == "--"
  {
    var first := Substring(s, 1, 10);
    assert first == s[1..10];
    assert first == "!-- x=\"y ";
    IndexOfAbsent(first, '<', 0);
    assert first[0] == '!' && first[1] == '-' && first[2] == '-';
    StartsThree(first, '!', '-', '-');
    assert first[|first| - 1] == ' ';
    LastCharDiffers(first, "--");
  }

  lemma SecondPatch(once: string)
    requires once == "<!-- x=\"y -->"
    ensures Newer(once, 0, 12) == "\""
  {
    var second := Substring(once, 1, 12);
    assert second == once[1..12];
    assert second == "!-- x=\"y --";
    assert second[|second| - 2] == '-' && second[|second| - 1] == '-';
    EndsTwo(second, '-', '-');
    assert second[5] == '=' && second[6] == '"';
    MatchTwo(second, '=', '"', 5);
    LastIndexOfHead(second, "=\"", 5);
    IndexOfAbsent(second, '"', 7);
  }

  /**
   * A state the loop as written never leaves: the cursor's `<` has no `>`
   * after it, and the quote rule fires on the text up to and including it.
   */
  predicate Stuck(s: string, lt: int) {
    0 <= lt < |s| && s[lt] == '<' && IndexOf(s, ">", lt) == -1 && Patch(s[..lt + 1]) == "\""
  }

  /** From a stuck state the loop prepends `"`, and the same `<` is found again one place on. */
  lemma StuckStep(s: string, lt: int)
    requires Stuck(s, lt)
    ensures StepAsWritten(Newer, s, lt) == ("\"" + s, lt + 1)
    ensures Stuck("\"" + s, lt + 1)
  {
    StuckPatch(s, lt);
    StuckAgain(s, lt);
  }

  /** Without a `>`, the tag text is everything up to the `<`, and the loop puts `"` in front of the page. */
  lemma StuckPatch(s: string, lt: int)
    requires Stuck(s, lt)
    ensures StepAsWritten(Newer, s, lt) == ("\"" + s, lt + 1)
  {
    MisplacedPatch(Newer, s, lt);
    assert Substring(s, lt + 1, -1) == s[..lt + 1];
    assert Newer(s, lt, -1) == Patch(s[..lt + 1]);
    var s' := StepAsWritten(Newer, s, lt).0;
    assert s' == "\"" + s;
    QuotedCursor(s, lt);
    assert StepAsWritten(Newer, s, lt).1 == IndexOf(s', "<", lt + 1);
  }

  lemma StuckAgain(s: string, lt: int)
    requires Stuck(s, lt)
    ensures Stuck("\"" + s, lt + 1)
  {
    var s' := "\"" + s;
    QuotedCursor(s, lt);
    assert s'[..lt + 2] == "\"" + s[..lt + 1];
    QuoteKeepsFiring(s[..lt + 1]);
  }

  /** With `"` in front, the `<` at `lt` moves to `lt + 1` and still has no `>` after it. */
  lemma QuotedCursor(s: string, lt: nat)
    requires lt < |s| && s[lt] == '<' && IndexOf(s, ">", lt) == -1
    ensures IndexOf("\"" + s, "<", lt + 1) == lt + 1
    ensures IndexOf("\"" + s, ">", lt + 1) == -1
  {
    var s' := "\"" + s;
    assert s'[lt + 1] == s[lt];
    IndexOfChar(s', '<', lt + 1, lt + 1);
    AbsentAfterPrefix("\"", s, '>', lt);
  }

  /** A `"` in front of a tag text on which the quote rule fires keeps it firing. */
  lemma QuoteKeepsFiring(inner: string)
    requires Patch(inner) == "\""
    ensures Patch("\"" + inner) == "\""
  {
    PatchRules(inner);
    var inner' := "\"" + inner;
    var a := LastIndexOf(inner, "=\"");
    MatchShift('"', inner, "=\"", a);
    forall j | a + 1 < j ensures !MatchAt(inner', "=\"", j) {
      MatchShift('"', inner, "=\"", j - 1);
    }
    LastIndexOfIs(inner', "=\"", a + 1);
    assert !StartsWith(inner', "!--") by {
      assert inner'[0] != '!';
    }
    PatchRules(inner');
  }

  /** From a stuck state the loop as written runs for ever: the cursor is never -1. */
  lemma StuckForever(s: string, lt: int, n: nat)
    requires Stuck(s, lt)
    ensures Iterate(BodyAsWritten(Newer), (s, lt), n).1 != -1
  {
    var body := BodyAsWritten(Newer);
    forall x: State | Stuck(x.0, x.1) ensures Stuck(body(x).0, body(x).1) {
      StuckStep(x.0, x.1);
    }
    NeverExits(body, (x: State) => Stuck(x.0, x.1), (s, lt), n);
  }

  /** `a="b<` keeps the loop as written busy for ever, while the corrected repair leaves it unchanged. */
  lemma DivergingInput(s: string)
    requires s == "a=\"b<"
    ensures forall n: nat :: Iterate(BodyAsWritten(Newer), (s, IndexOf(s, "<", 0)), n).1 != -1
    ensures Repaired(Newer, s) == s
  {
    IndexOfChar(s, '<', 0, 4);
    IndexOfAbsent(s, '>', 4);
    assert s[..5] == s;
    QuoteFiresOnDiverging(s);
    assert Stuck(s, 4);
    forall n: nat ensures Iterate(BodyAsWritten(Newer), (s, 4), n).1 != -1 {
      StuckForever(s, 4, n);
    }
    UnclosedLeftAlone(Newer, s, 4);
  }

  lemma QuoteFiresOnDiverging(s: string)
    requires s == "a=\"b<"
    ensures Patch(s) == "\""
  {
    assert s[0] != '!';
    assert s[1..3] == "=\"";
    LastIndexOfHead(s, "=\"", 1);
    IndexOfAbsent(s, '"', 3);
  }

  /**
   * Every round of the newer loop that misplaces its patch is stuck: the
   * tag text then runs to the end and holds the cursor's `<`, so the
   * comment rule cannot fire and the patch is `"`.
   */
  lemma MisplacedIsStuck(s: string, lt: int)
    requires Misplaced(Newer, s, lt)
    ensures Stuck(s, lt)
  {
    var inner := s[..lt + 1];
    assert Substring(s, lt + 1, -1) == inner;
    MatchChar(inner, '<', lt);
    IncludesMeansOccurs(inner, "<");
    PatchRules(inner);
  }

  /** Every misplacing round of the newer loop as written leaves it running for ever. */
  lemma NewerMisplacingDiverges()
    ensures MisplacingDiverges(Newer)
  {
    forall x: State | Misplaced(Newer, x.0, x.1) ensures Diverges(Newer, x) {
      MisplacedIsStuck(x.0, x.1);
      forall m: nat ensures Iterate(BodyAsWritten(Newer), x, m).1 != -1 {
        StuckForever(x.0, x.1, m);
      }
    }
  }

  /**
   * Wherever the newer loop as written stops, it has computed the corrected
   * repair; it only differs by not stopping.
   */
  lemma WrittenLoopAgrees(s: string, n: nat)
    ensures var st := Iterate(BodyAsWritten(Newer), (s, IndexOf(s, "<", 0)), n);
      st.1 == -1 ==> st.0 == Repaired(Newer, s)
  {
    NewerMisplacingDiverges();
    WrittenRepairAgrees(Newer, s, n);
  }
}
