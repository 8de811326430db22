/**
 * The older viewer's removal of unneeded tags (`viewer.js`, lines 269-277):
 * every element whose lower-cased name is `head`, `header`, `link`, `meta` or
 * `form` is replaced by its children, and every `title`, `base` or `nextid`
 * element is removed with everything inside it.
 */
module TagCleanup {
  import opened JsString

  /** A node of the parsed page: an element, or any other node (text, comment). */
  datatype Node = Element(name: string, children: seq<Node>) | Leaf(text: string)

  /** What the callback does with an element. */
  datatype Action = Keep | Unwrap | Remove

  /** `unneededElements`. */
  const Unwrapped: seq<string> := ["head", "header", "link", "meta", "form"]

  /** `unneededTags`. */
  const Removed: seq<string> := ["title", "base", "nextid"]

  /** The test on `node.nodeName.toLowerCase()`. */
  function ActionOf(name: string): (r: Action)
    ensures r == Unwrap <==> Lower(name) in Unwrapped
    ensures r == Remove <==> Lower(name) in Removed
  {
    if Lower(name) in Unwrapped then Unwrap
    else if Lower(name) in Removed then Remove
    else Keep
  }

  lemma LowerTwice(s: string)
    ensures Lower(Lower(s)) == Lower(s)
  {
  }

  /** The names are compared case-insensitively: `TITLE`, `Title` and `title` are treated alike. */
  lemma ActionIgnoresCase(name: string)
    ensures ActionOf(Lower(name)) == ActionOf(name)
  {
    LowerTwice(name);
  }

  /** The page after the callback has visited every element, in document order. */
  function Clean(n: Node): seq<Node>
    decreases n, 1
  {
    match n
    case Leaf(_) => [n]
    case Element(name, children) =>
      match ActionOf(name)
      case Keep => [Element(name, CleanAll(children))]
      case Unwrap => CleanAll(children)
      case Remove => []
  }

  function CleanAll(ns: seq<Node>): seq<Node>
    decreases ns, 0
  {
    if ns == [] then [] else Clean(ns[0]) + CleanAll(ns[1..])
  }

  /** No element anywhere in the nodes is one the callback unwraps or removes. */
  predicate Tidy(ns: seq<Node>)
    decreases ns, 0
  {
    forall i :: 0 <= i < |ns| ==> TidyNode(ns[i])
  }

  predicate TidyNode(n: Node)
    decreases n, 1
  {
    match n
    case Leaf(_) => true
    case Element(name, children) => ActionOf(name) == Keep && Tidy(children)
  }

  /** No element marked for removal anywhere in the nodes. */
  predicate NothingRemoved(ns: seq<Node>)
    decreases ns, 0
  {
    forall i :: 0 <= i < |ns| ==> NothingRemovedIn(ns[i])
  }

  predicate NothingRemovedIn(n: Node)
    decreases n, 1
  {
    match n
    case Leaf(_) => true
    case Element(name, children) => ActionOf(name) != Remove && NothingRemoved(children)
  }

  /** The text of the nodes, in document order. */
  function TextOf(ns: seq<Node>): string
    decreases ns, 0
  {
    if ns == [] then [] else TextIn(ns[0]) + TextOf(ns[1..])
  }

  function TextIn(n: Node): string
    decreases n, 1
  {
    match n
    case Leaf(t) => t
    case Element(_, children) => TextOf(children)
  }

  lemma TidyAppend(a: seq<Node>, b: seq<Node>)
    requires Tidy(a) && Tidy(b)
    ensures Tidy(a + b)
  {
    forall i | 0 <= i < |a + b|
      ensures TidyNode((a + b)[i])
    {
      if i < |a| {
        assert (a + b)[i] == a[i];
      } else {
        assert (a + b)[i] == b[i - |a|];
      }
    }
  }

  lemma {:induction false} TextOfAppend(a: seq<Node>, b: seq<Node>)
    ensures TextOf(a + b) == TextOf(a) + TextOf(b)
    decreases a
  {
    if a == [] {
      assert a + b == b;
    } else {
      assert (a + b)[0] == a[0];
      assert (a + b)[1..] == a[1..] + b;
      TextOfAppend(a[1..], b);
      assert TextOf(a + b) == TextIn(a[0]) + TextOf(a[1..] + b);
    }
  }

  /** After the pass no unneeded element is left, at any depth. */
  lemma {:induction false} CleanIsTidy(ns: seq<Node>)
    ensures Tidy(CleanAll(ns))
    decreases ns, 0
  {
    if ns != [] {
      CleanNodeIsTidy(ns[0]);
      CleanIsTidy(ns[1..]);
      TidyAppend(Clean(ns[0]), CleanAll(ns[1..]));
    }
  }

  lemma {:induction false} CleanNodeIsTidy(n: Node)
    ensures Tidy(Clean(n))
    decreases n, 1
  {
    match n
    case Leaf(_) =>
    case Element(name, children) =>
      CleanIsTidy(children);
  }

  /** A page without unneeded elements is left as it is. */
  lemma {:induction false} CleanKeepsTidy(ns: seq<Node>)
    requires Tidy(ns)
    ensures CleanAll(ns) == ns
    decreases ns, 0
  {
    if ns != [] {
      assert TidyNode(ns[0]);
      CleanNodeKeepsTidy(ns[0]);
      assert Tidy(ns[1..]) by {
        forall i | 0 <= i < |ns[1..]| ensures TidyNode(ns[1..][i]) {
          assert ns[1..][i] == ns[i + 1];
        }
      }
      CleanKeepsTidy(ns[1..]);
      assert ns == [ns[0]] + ns[1..];
    }
  }

  lemma {:induction false} CleanNodeKeepsTidy(n: Node)
    requires TidyNode(n)
    ensures Clean(n) == [n]
    decreases n, 1
  {
    match n
    case Leaf(_) =>
    case Element(name, children) =>
      CleanKeepsTidy(children);
  }

  /** So a second pass changes nothing. */
  lemma CleanIdempotent(ns: seq<Node>)
    ensures CleanAll(CleanAll(ns)) == CleanAll(ns)
  {
    CleanIsTidy(ns);
    CleanKeepsTidy(CleanAll(ns));
  }

  /** Unwrapping loses no text: when nothing is marked for removal, all the page's text stays, in order. */
  lemma {:induction false} CleanKeepsText(ns: seq<Node>)
    requires NothingRemoved(ns)
    ensures TextOf(CleanAll(ns)) == TextOf(ns)
    decreases ns, 0
  {
    if ns != [] {
      assert NothingRemovedIn(ns[0]);
      CleanNodeKeepsText(ns[0]);
      assert NothingRemoved(ns[1..]) by {
        forall i | 0 <= i < |ns[1..]| ensures NothingRemovedIn(ns[1..][i]) {
          assert ns[1..][i] == ns[i + 1];
        }
      }
      CleanKeepsText(ns[1..]);
      TextOfAppend(Clean(ns[0]), CleanAll(ns[1..]));
    }
  }

  lemma {:induction false} CleanNodeKeepsText(n: Node)
    requires NothingRemovedIn(n)
    ensures TextOf(Clean(n)) == TextIn(n)
    decreases n, 1
  {
    match n
    case Leaf(t) =>
      assert [n][1..] == [];
    case Element(name, children) =>
      CleanKeepsText(children);
      if ActionOf(name) == Keep {
        assert [Element(name, CleanAll(children))][1..] == [];
      }
  }

  /** `<TITLE>` goes with its text; `<HEAD>` only loses its tags. */
  lemma TitleAndHeadExample(t: string)
    ensures CleanAll([Element("TITLE", [Leaf(t)])]) == []
    ensures CleanAll([Element("HEAD", [Leaf(t)])]) == [Leaf(t)]
  {
    assert Lower("TITLE") == "title";
    assert Lower("HEAD") == "head";
    var head := [Element("HEAD", [Leaf(t)])];
    assert head[1..] == [] && [Leaf(t)][1..] == [];
    assert CleanAll(head) == CleanAll([Leaf(t)]) + CleanAll([]);
  }
}
