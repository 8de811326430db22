/** "Only inserts text": the relation between a string and one with extra characters added. */
module Insertions {

  /** `r` is `s` with zero or more characters drawn from `fill` inserted anywhere. */
  ghost predicate Pads(s: string, r: string, fill: set<char>)
    decreases |r|
  {
    if r == [] then s == []
    else
      (s != [] && s[0] == r[0] && Pads(s[1..], r[1..], fill))
      || (r[0] in fill && Pads(s, r[1..], fill))
  }

  lemma {:induction false} PadsReflexive(s: string, fill: set<char>)
    ensures Pads(s, s, fill)
    decreases |s|
  {
    if s != [] {
      PadsReflexive(s[1..], fill);
    }
  }

  lemma {:induction false} PadsPrefix(p: string, s: string, r: string, fill: set<char>)
    requires Pads(s, r, fill)
    ensures Pads(p + s, p + r, fill)
    decreases |p|
  {
    if p == [] {
      assert p + s == s && p + r == r;
    } else {
      PadsPrefix(p[1..], s, r, fill);
      assert (p + s)[1..] == p[1..] + s;
      assert (p + r)[1..] == p[1..] + r;
    }
  }

  lemma {:induction false} PadsFill(ins: string, s: string, fill: set<char>)
    requires forall i :: 0 <= i < |ins| ==> ins[i] in fill
    ensures Pads(s, ins + s, fill)
    decreases |ins|
  {
    if ins == [] {
      PadsReflexive(s, fill);
      assert ins + s == s;
    } else {
      PadsFill(ins[1..], s, fill);
      assert (ins + s)[1..] == ins[1..] + s;
    }
  }

  /** Inserting a block of fill characters at one position. */
  lemma PadsInsert(x: string, ins: string, y: string, fill: set<char>)
    requires forall i :: 0 <= i < |ins| ==> ins[i] in fill
    ensures Pads(x + y, x + ins + y, fill)
  {
    PadsFill(ins, y, fill);
    PadsPrefix(x, y, ins + y, fill);
    assert x + ins + y == x + (ins + y);
  }

  lemma {:induction false} PadsTransitive(a: string, b: string, c: string, fill: set<char>)
    requires Pads(a, b, fill) && Pads(b, c, fill)
    ensures Pads(a, c, fill)
    decreases |c|
  {
    if c == [] {
    } else if b != [] && b[0] == c[0] && Pads(b[1..], c[1..], fill) {
      if a != [] && a[0] == b[0] && Pads(a[1..], b[1..], fill) {
        PadsTransitive(a[1..], b[1..], c[1..], fill);
      } else {
        PadsTransitive(a, b[1..], c[1..], fill);
      }
    } else {
      PadsTransitive(a, b, c[1..], fill);
    }
  }

  /** Inserting never shortens. */
  lemma {:induction false} PadsLength(s: string, r: string, fill: set<char>)
    requires Pads(s, r, fill)
    ensures |s| <= |r|
    decreases |r|
  {
    if r != [] {
      if s != [] && s[0] == r[0] && Pads(s[1..], r[1..], fill) {
        PadsLength(s[1..], r[1..], fill);
      } else {
        PadsLength(s, r[1..], fill);
      }
    }
  }
}
