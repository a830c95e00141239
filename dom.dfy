/**
 * A value model of the parts of the DOM the content script relies on: element
 * trees whose elements may host an open shadow root, node references as paths,
 * light-tree queries (`querySelectorAll`, `querySelector`, `getElementById`),
 * and the edits `insertBefore(x, firstChild)`, `appendChild` and `remove`.
 */
module Dom {
  import opened Wrappers

  /**
   * A node: a document or shadow-root fragment, or an element. The element fields
   * are what selectors and the extension look at; `text` is a textarea's value.
   */
  datatype Node =
    | Fragment(children: seq<Node>)
    | Element(tag: string, id: string, classes: set<string>, fixed: bool, text: string,
              children: seq<Node>, shadowRoot: ShadowRoot)

  /** `element.shadowRoot`: null, or an attached open shadow root with its own children. */
  datatype ShadowRoot = NoShadowRoot | ShadowRoot(children: seq<Node>)

  /** One step of a node reference: into the i-th child, or into the element's shadow root. */
  datatype Step = Child(index: nat) | IntoShadow

  /** A node reference: the route from the root of a query to the node. */
  type Path = seq<Step>

  /** A CSS selector, treated as an opaque test on nodes. */
  type Selector = Node -> bool

  predicate IsHost(n: Node) {
    n.Element? && n.shadowRoot.ShadowRoot?
  }

  /** The shadow root of a host, as a fragment that queries can start from. */
  function ShadowTree(n: Node): Node
    requires IsHost(n)
  {
    Fragment(n.shadowRoot.children)
  }

  function Size(n: Node): nat {
    1 + ForestSize(n.children)
    + (if n.Element? && n.shadowRoot.ShadowRoot? then 1 + ForestSize(n.shadowRoot.children) else 0)
  }

  function ForestSize(cs: seq<Node>): nat {
    if cs == [] then 0 else Size(cs[0]) + ForestSize(cs[1..])
  }

  lemma ChildSmaller(cs: seq<Node>, i: nat)
    requires i < |cs|
    ensures Size(cs[i]) <= ForestSize(cs)
  {
    if i > 0 {
      ChildSmaller(cs[1..], i - 1);
    }
  }

  /** The node a reference leads to, if the route exists. */
  function At(n: Node, p: Path): Option<Node>
    decreases p
  {
    if p == [] then Some(n)
    else
      match p[0]
      case Child(i) => if i < |n.children| then At(n.children[i], p[1..]) else None
      case IntoShadow => if IsHost(n) then At(ShadowTree(n), p[1..]) else None
  }

  lemma AtSmaller(n: Node, p: Path)
    requires At(n, p).Some?
    ensures Size(At(n, p).value) <= Size(n)
    ensures p != [] ==> Size(At(n, p).value) < Size(n)
    decreases p
  {
    if p != [] {
      match p[0]
      case Child(i) =>
        ChildSmaller(n.children, i);
        AtSmaller(n.children[i], p[1..]);
      case IntoShadow =>
        AtSmaller(ShadowTree(n), p[1..]);
    }
  }

  lemma AtAppend(n: Node, p: Path, q: Path)
    ensures At(n, p + q) == if At(n, p).Some? then At(At(n, p).value, q) else None
    decreases p
  {
    if p == [] {
      assert p + q == q;
    } else {
      assert (p + q)[0] == p[0] && (p + q)[1..] == p[1..] + q;
      match p[0]
      case Child(i) =>
        if i < |n.children| {
          AtAppend(n.children[i], p[1..], q);
        }
      case IntoShadow =>
        if IsHost(n) {
          AtAppend(ShadowTree(n), p[1..], q);
        }
    }
  }

  /** A route that stays in the light tree: it never enters a shadow root. */
  predicate IsLight(p: Path) {
    forall k :: 0 <= k < |p| ==> p[k].Child?
  }

  function Prefixed(pre: Path, ps: seq<Path>): (r: seq<Path>)
    ensures |r| == |ps|
    ensures forall k :: 0 <= k < |ps| ==> r[k] == pre + ps[k]
  {
    seq(|ps|, k requires 0 <= k < |ps| => pre + ps[k])
  }

  /**
   * The light-tree descendants of `n`, in document (pre-)order, as references
   * relative to `n`; `n` itself is not included, nor anything inside a shadow root.
   */
  function Descendants(n: Node): seq<Path>
    decreases Size(n), 0, 0
  {
    Subtrees(n.children, 0)
  }

  /** The children `cs[k..]` and their light descendants, in document order. */
  function Subtrees(cs: seq<Node>, k: nat): seq<Path>
    decreases ForestSize(cs), 1, |cs| - k
  {
    if k >= |cs| then []
    else
      ChildSmaller(cs, k);
      [[Child(k)]] + Prefixed([Child(k)], Descendants(cs[k])) + Subtrees(cs, k + 1)
  }

  lemma DescendantsSound(n: Node, p: Path)
    requires p in Descendants(n)
    ensures p != [] && IsLight(p) && At(n, p).Some?
    decreases Size(n), 0, 0
  {
    SubtreesSound(n, 0, p);
  }

  lemma SubtreesSound(n: Node, k: nat, p: Path)
    requires p in Subtrees(n.children, k)
    ensures p != [] && IsLight(p) && p[0].Child? && k <= p[0].index && At(n, p).Some?
    decreases ForestSize(n.children), 1, |n.children| - k
  {
    var cs := n.children;
    ChildSmaller(cs, k);
    var ds := Descendants(cs[k]);
    if p == [Child(k)] {
    } else if p in Prefixed([Child(k)], ds) {
      var j :| 0 <= j < |ds| && p == [Child(k)] + ds[j];
      DescendantsSound(cs[k], ds[j]);
      assert p[1..] == ds[j];
    } else {
      SubtreesSound(n, k + 1, p);
    }
  }

  lemma DescendantsComplete(n: Node, p: Path)
    requires p != [] && IsLight(p) && At(n, p).Some?
    ensures p in Descendants(n)
    decreases Size(n), 0, 0
  {
    SubtreesComplete(n, 0, p);
  }

  lemma SubtreesComplete(n: Node, k: nat, p: Path)
    requires p != [] && IsLight(p) && k <= p[0].index && At(n, p).Some?
    ensures p in Subtrees(n.children, k)
    decreases ForestSize(n.children), 1, |n.children| - k
  {
    var cs := n.children;
    assert p[0].index < |cs|;
    ChildSmaller(cs, k);
    if p[0].index == k {
      if |p| > 1 {
        var ds := Descendants(cs[k]);
        assert IsLight(p[1..]) by {
          forall j | 0 <= j < |p[1..]| ensures p[1..][j].Child? {
            assert p[1..][j] == p[j + 1];
          }
        }
        DescendantsComplete(cs[k], p[1..]);
        var j :| 0 <= j < |ds| && ds[j] == p[1..];
        assert p == [Child(k)] + ds[j];
        assert Prefixed([Child(k)], ds)[j] == p;
      } else {
        assert p == [Child(k)];
      }
    } else {
      SubtreesComplete(n, k + 1, p);
    }
  }

  /**
   * Document order on references: `p` comes before `q` when it is a proper prefix of
   * `q` (an ancestor), or when at the first step where they differ `p` takes the
   * earlier child.
   */
  predicate Precedes(p: Path, q: Path)
    decreases |p|
  {
    && q != []
    && (|| p == []
        || (p[0].Child? && q[0].Child? && p[0].index < q[0].index)
        || (p[0] == q[0] && Precedes(p[1..], q[1..])))
  }

  /** No reference comes before itself, nor both before and after another. */
  lemma {:induction false} PrecedesAsymmetric(p: Path, q: Path)
    ensures Precedes(p, q) ==> !Precedes(q, p)
    decreases |p|
  {
    if p != [] && q != [] && p[0] == q[0] {
      PrecedesAsymmetric(p[1..], q[1..]);
    }
  }

  /** Every reference of `ps` comes before every later one. */
  ghost predicate InDocumentOrder(ps: seq<Path>) {
    forall i, j :: 0 <= i < j < |ps| ==> Precedes(ps[i], ps[j])
  }

  lemma OrderedConcat(a: seq<Path>, b: seq<Path>)
    requires InDocumentOrder(a) && InDocumentOrder(b)
    requires forall x, y :: x in a && y in b ==> Precedes(x, y)
    ensures InDocumentOrder(a + b)
  {
    forall i, j | 0 <= i < j < |a + b| ensures Precedes((a + b)[i], (a + b)[j]) {
      if j < |a| {
        assert (a + b)[i] == a[i] && (a + b)[j] == a[j];
      } else if i >= |a| {
        assert (a + b)[i] == b[i - |a|] && (a + b)[j] == b[j - |a|];
      } else {
        assert (a + b)[i] in a && (a + b)[j] in b;
      }
    }
  }

  /** The light descendants are listed in document order. */
  lemma {:induction false} DescendantsOrdered(n: Node)
    ensures InDocumentOrder(Descendants(n))
    decreases Size(n), 0, 0
  {
    SubtreesOrdered(n.children, 0);
  }

  lemma {:induction false} SubtreesOrdered(cs: seq<Node>, k: nat)
    ensures InDocumentOrder(Subtrees(cs, k))
    decreases ForestSize(cs), 1, |cs| - k
  {
    if k < |cs| {
      ChildSmaller(cs, k);
      var ds := Descendants(cs[k]);
      var head, below, rest := [[Child(k)]], Prefixed([Child(k)], ds), Subtrees(cs, k + 1);
      DescendantsOrdered(cs[k]);
      SubtreesOrdered(cs, k + 1);
      forall i, j | 0 <= i < j < |below| ensures Precedes(below[i], below[j]) {
        assert below[i][1..] == ds[i] && below[j][1..] == ds[j];
      }
      forall x, y | x in head && y in below ensures Precedes(x, y) {
        var j :| 0 <= j < |below| && y == below[j];
        DescendantsSound(cs[k], ds[j]);
        assert y[1..] == ds[j];
      }
      forall x, y | x in head + below && y in rest ensures Precedes(x, y) {
        SubtreesSound(Fragment(cs), k + 1, y);
        if x !in head {
          var i :| 0 <= i < |below| && x == below[i];
        }
      }
      OrderedConcat(head, below);
      OrderedConcat(head + below, rest);
    }
  }

  /** The reference leads to an element that the selector matches. */
  predicate Hits(sel: Selector, n: Node, p: Path) {
    At(n, p).Some? && At(n, p).value.Element? && sel(At(n, p).value)
  }

  /** The references of `ps` that lead to matching elements, in the order of `ps`. */
  function Filter(sel: Selector, n: Node, ps: seq<Path>): (r: seq<Path>)
    ensures forall p :: p in r <==> p in ps && Hits(sel, n, p)
  {
    if ps == [] then []
    else (if Hits(sel, n, ps[0]) then [ps[0]] else []) + Filter(sel, n, ps[1..])
  }

  lemma FilterConcat(sel: Selector, n: Node, a: seq<Path>, b: seq<Path>)
    ensures Filter(sel, n, a + b) == Filter(sel, n, a) + Filter(sel, n, b)
  {
    if a == [] {
      assert a + b == b;
    } else {
      assert (a + b)[1..] == a[1..] + b;
      FilterConcat(sel, n, a[1..], b);
    }
  }

  /** `root.querySelectorAll(selector)`: matching light descendants of `root`, in document order. */
  function QuerySelectorAll(sel: Selector, root: Node): seq<Path> {
    Filter(sel, root, Descendants(root))
  }

  /** The first reference `Filter` keeps comes before every other matching one of `ps`. */
  lemma {:induction false} FilterFirst(sel: Selector, n: Node, ps: seq<Path>, p: Path)
    requires InDocumentOrder(ps) && Filter(sel, n, ps) != []
    requires p in ps && Hits(sel, n, p)
    ensures p == Filter(sel, n, ps)[0] || Precedes(Filter(sel, n, ps)[0], p)
  {
    if !Hits(sel, n, ps[0]) {
      assert p in ps[1..];
      assert InDocumentOrder(ps[1..]) by {
        forall i, j | 0 <= i < j < |ps[1..]| ensures Precedes(ps[1..][i], ps[1..][j]) {
          assert ps[1..][i] == ps[i + 1] && ps[1..][j] == ps[j + 1];
        }
      }
      FilterFirst(sel, n, ps[1..], p);
    } else if p != ps[0] {
      var j :| 0 <= j < |ps| && p == ps[j];
    }
  }

  /** `root.querySelector(selector)`: the first matching light descendant, or null. */
  function QuerySelector(sel: Selector, root: Node): (r: Option<Path>)
    ensures r.Some? ==> Hits(sel, root, r.value) && IsLight(r.value) && r.value != []
    ensures r.Some? ==> forall p :: p != [] && IsLight(p) && Hits(sel, root, p) ==>
      p == r.value || Precedes(r.value, p)
    ensures r.None? <==> forall p :: p != [] && IsLight(p) ==> !Hits(sel, root, p)
  {
    var all := QuerySelectorAll(sel, root);
    if all == [] then
      forall p | p != [] && IsLight(p) ensures !Hits(sel, root, p) {
        if Hits(sel, root, p) {
          DescendantsComplete(root, p);
        }
      }
      None
    else
      DescendantsSound(root, all[0]);
      DescendantsOrdered(root);
      forall p | p != [] && IsLight(p) && Hits(sel, root, p) ensures p == all[0] || Precedes(all[0], p) {
        DescendantsComplete(root, p);
        FilterFirst(sel, root, Descendants(root), p);
      }
      Some(all[0])
  }

  function IdIs(id: string): Selector {
    (n: Node) => n.Element? && n.id == id
  }

  /** `root.getElementById(id)`: the first light-tree element carrying `id`, or null. */
  function GetElementById(root: Node, id: string): Option<Path> {
    QuerySelector(IdIs(id), root)
  }

  /**
   * The result of `querySelectorAllDeep(selector, root)`: the matches of
   * `root.querySelectorAll`, then, for each light descendant in document order that
   * hosts a shadow root, the deep matches inside that shadow root.
   */
  function DeepMatches(sel: Selector, root: Node): seq<Path>
    decreases Size(root), 1, 0
  {
    QuerySelectorAll(sel, root) + HostResults(sel, root, |Descendants(root)|)
  }

  /** The shadow-root results contributed by the first `k` light descendants of `root`. */
  function HostResults(sel: Selector, root: Node, k: nat): seq<Path>
    requires k <= |Descendants(root)|
    decreases Size(root), 0, k
  {
    if k == 0 then []
    else
      var p := Descendants(root)[k - 1];
      DescendantsSound(root, p);
      var host := At(root, p).value;
      AtSmaller(root, p);
      HostResults(sel, root, k - 1)
      + (if IsHost(host) then Prefixed(p + [IntoShadow], DeepMatches(sel, ShadowTree(host))) else [])
  }

  /**
   * The references the deep search is meant to find: routes from `root` that start
   * in its light tree, may enter any number of nested shadow roots on the way, and
   * end at an element the selector matches.
   */
  predicate DeepHit(sel: Selector, root: Node, p: Path) {
    p != [] && p[0].Child? && Hits(sel, root, p)
  }

  /** Length of the longest prefix of `p` that stays in the light tree. */
  function LightPrefixLength(p: Path): (j: nat)
    ensures j <= |p| && IsLight(p[..j])
    ensures j < |p| ==> p[j] == IntoShadow
  {
    if p == [] || p[0] == IntoShadow then 0
    else
      var j := LightPrefixLength(p[1..]);
      assert p[..1 + j] == [p[0]] + p[1..][..j];
      1 + j
  }

  lemma PrefixedWitness(pre: Path, ps: seq<Path>, x: Path) returns (r: Path)
    requires x in Prefixed(pre, ps)
    ensures r in ps && x == pre + r
  {
    var j :| 0 <= j < |ps| && Prefixed(pre, ps)[j] == x;
    r := ps[j];
  }

  /** A route that enters the shadow root of the node at `q` continues in that shadow tree. */
  lemma AtThroughShadow(n: Node, q: Path, r: Path)
    ensures At(n, q + [IntoShadow] + r) ==
      if At(n, q).Some? && IsHost(At(n, q).value) then At(ShadowTree(At(n, q).value), r) else None
  {
    assert q + [IntoShadow] + r == q + ([IntoShadow] + r);
    AtAppend(n, q, [IntoShadow] + r);
    assert ([IntoShadow] + r)[1..] == r;
  }

  lemma DeepMatchesSound(sel: Selector, root: Node, p: Path)
    requires p in DeepMatches(sel, root)
    ensures DeepHit(sel, root, p)
    decreases Size(root), 1, 0
  {
    if p in QuerySelectorAll(sel, root) {
      DescendantsSound(root, p);
    } else {
      HostResultsSound(sel, root, |Descendants(root)|, p);
    }
  }

  lemma HostResultsSound(sel: Selector, root: Node, k: nat, p: Path)
    requires k <= |Descendants(root)|
    requires p in HostResults(sel, root, k)
    ensures DeepHit(sel, root, p)
    decreases Size(root), 0, k
  {
    if p in HostResults(sel, root, k - 1) {
      HostResultsSound(sel, root, k - 1, p);
    } else {
      ShadowResultSound(sel, root, k, p);
    }
  }

  /** A result the `k`-th light descendant contributes from its shadow tree is a deep hit from `root`. */
  lemma ShadowResultSound(sel: Selector, root: Node, k: nat, p: Path)
    requires 0 < k <= |Descendants(root)|
    requires p in HostResults(sel, root, k) && p !in HostResults(sel, root, k - 1)
    ensures DeepHit(sel, root, p)
    decreases Size(root), 0, k - 1
  {
    var q := Descendants(root)[k - 1];
    DescendantsSound(root, q);
    var host := At(root, q).value;
    AtSmaller(root, q);
    assert IsHost(host) && p in Prefixed(q + [IntoShadow], DeepMatches(sel, ShadowTree(host)));
    var r := PrefixedWitness(q + [IntoShadow], DeepMatches(sel, ShadowTree(host)), p);
    DeepMatchesSound(sel, ShadowTree(host), r);
    AtThroughShadow(root, q, r);
  }

  lemma HostResultsContain(sel: Selector, root: Node, k: nat, i: nat, r: Path)
    requires i < k <= |Descendants(root)|
    requires At(root, Descendants(root)[i]).Some?
    requires IsHost(At(root, Descendants(root)[i]).value)
    requires r in DeepMatches(sel, ShadowTree(At(root, Descendants(root)[i]).value))
    ensures Descendants(root)[i] + [IntoShadow] + r in HostResults(sel, root, k)
    decreases k
  {
    if i < k - 1 {
      HostResultsContain(sel, root, k - 1, i, r);
    } else {
      var q := Descendants(root)[i];
      var inner := DeepMatches(sel, ShadowTree(At(root, q).value));
      var j :| 0 <= j < |inner| && inner[j] == r;
      assert Prefixed(q + [IntoShadow], inner)[j] == q + [IntoShadow] + r;
    }
  }

  lemma DeepMatchesComplete(sel: Selector, root: Node, p: Path)
    requires DeepHit(sel, root, p)
    ensures p in DeepMatches(sel, root)
    decreases Size(root)
  {
    var j := LightPrefixLength(p);
    if j == |p| {
      assert p[..j] == p;
      DescendantsComplete(root, p);
    } else {
      var q, r := p[..j], p[j + 1..];
      assert p == q + [IntoShadow] + r;
      AtThroughShadow(root, q, r);
      var host := At(root, q).value;
      assert r != [] && r[0].Child?;
      DescendantsComplete(root, q);
      var i :| 0 <= i < |Descendants(root)| && Descendants(root)[i] == q;
      AtSmaller(root, q);
      DeepMatchesComplete(sel, ShadowTree(host), r);
      HostResultsContain(sel, root, |Descendants(root)|, i, r);
    }
  }

  /**
   * What `querySelectorAllDeep` finds: exactly the matching elements reachable from
   * the root through light trees and nested shadow roots; so it is empty exactly when
   * nothing matches anywhere.
   */
  lemma DeepMatchesExact(sel: Selector, root: Node)
    ensures forall p :: p in DeepMatches(sel, root) <==> DeepHit(sel, root, p)
    ensures DeepMatches(sel, root) == [] <==> forall p :: !DeepHit(sel, root, p)
  {
    forall p
      ensures p in DeepMatches(sel, root) <==> DeepHit(sel, root, p)
    {
      if p in DeepMatches(sel, root) {
        DeepMatchesSound(sel, root, p);
      }
      if DeepHit(sel, root, p) {
        DeepMatchesComplete(sel, root, p);
      }
    }
    if DeepMatches(sel, root) != [] {
      DeepMatchesSound(sel, root, DeepMatches(sel, root)[0]);
    }
  }

  lemma AppendAssociative<T>(a: seq<T>, b: seq<T>, c: seq<T>)
    ensures (a + b) + c == a + (b + c)
  {
  }

  /** One more light descendant adds the deep results of its shadow root, if it hosts one. */
  lemma HostResultsNext(sel: Selector, root: Node, k: nat)
    requires k < |Descendants(root)|
    ensures At(root, Descendants(root)[k]).Some?
    ensures IsHost(At(root, Descendants(root)[k]).value) ==>
      Size(ShadowTree(At(root, Descendants(root)[k]).value)) < Size(root)
    ensures var host := At(root, Descendants(root)[k]).value;
      HostResults(sel, root, k + 1) == HostResults(sel, root, k)
        + (if IsHost(host) then Prefixed(Descendants(root)[k] + [IntoShadow], DeepMatches(sel, ShadowTree(host))) else [])
  {
    DescendantsSound(root, Descendants(root)[k]);
    AtSmaller(root, Descendants(root)[k]);
  }

  /**
   * `querySelectorAllDeep`: start from the light matches, then walk every light
   * descendant and append the deep results of each shadow root met.
   */
  method QuerySelectorAllDeep(sel: Selector, root: Node) returns (results: seq<Path>)
    ensures results == DeepMatches(sel, root)
    decreases Size(root)
  {
    var light := QuerySelectorAll(sel, root);
    results := light;
    assert results == light + HostResults(sel, root, 0);
    var hosts := Descendants(root);
    for k := 0 to |hosts|
      invariant results == light + HostResults(sel, root, k)
    {
      HostResultsNext(sel, root, k);
      var host := At(root, hosts[k]).value;
      if IsHost(host) {
        var inner := QuerySelectorAllDeep(sel, ShadowTree(host));
        var found := Prefixed(hosts[k] + [IntoShadow], inner);
        AppendAssociative(light, HostResults(sel, root, k), found);
        results := results + found;
      } else {
        assert HostResults(sel, root, k + 1) == HostResults(sel, root, k) + [];
      }
    }
  }

  /** The fields of a node other than its children and shadow root are equal. */
  predicate SameLabel(a: Node, b: Node) {
    a.Fragment? == b.Fragment?
    && (a.Element? ==>
          a.tag == b.tag && a.id == b.id && a.classes == b.classes && a.fixed == b.fixed && a.text == b.text)
  }

  /**
   * A change to one node: `insertBefore(x, firstChild)`, `appendChild(x)`, or the
   * removal of its child `index` (what `child.remove()` does to the parent).
   */
  datatype Edit = Prepend(node: Node) | Append(node: Node) | RemoveChild(index: nat)

  function Apply(e: Edit, m: Node): (r: Node)
    ensures SameLabel(r, m) && (m.Element? ==> r.shadowRoot == m.shadowRoot)
  {
    match e
    case Prepend(c) => m.(children := [c] + m.children)
    case Append(c) => m.(children := m.children + [c])
    case RemoveChild(i) =>
      if i < |m.children| then m.(children := m.children[..i] + m.children[i + 1..]) else m
  }

  /** The tree after applying `e` to the node at `p`; a reference that does not exist changes nothing. */
  function Update(n: Node, p: Path, e: Edit): (r: Node)
    ensures SameLabel(r, n)
    decreases p
  {
    if p == [] then Apply(e, n)
    else
      match p[0]
      case Child(i) =>
        if i < |n.children| then n.(children := n.children[i := Update(n.children[i], p[1..], e)]) else n
      case IntoShadow =>
        if IsHost(n) then n.(shadowRoot := ShadowRoot(Update(ShadowTree(n), p[1..], e).children)) else n
  }

  /** `node.remove()` for the node at `p`: its parent loses that child. */
  function Remove(n: Node, p: Path): Node
    requires p != [] && p[|p| - 1].Child?
  {
    Update(n, p[..|p| - 1], RemoveChild(p[|p| - 1].index))
  }

  /** After an edit at `p`, the node at `p` is the edited node. */
  lemma AtUpdate(n: Node, p: Path, e: Edit)
    requires At(n, p).Some?
    ensures At(Update(n, p, e), p) == Some(Apply(e, At(n, p).value))
    decreases p
  {
    if p != [] {
      match p[0]
      case Child(i) =>
        AtUpdate(n.children[i], p[1..], e);
      case IntoShadow =>
        AtUpdate(ShadowTree(n), p[1..], e);
    }
  }

  /** Number of elements carrying `id` anywhere under `n`, shadow trees included. */
  function Count(id: string, n: Node): nat {
    (if n.Element? && n.id == id then 1 else 0)
    + ForestCount(id, n.children)
    + (if n.Element? && n.shadowRoot.ShadowRoot? then ForestCount(id, n.shadowRoot.children) else 0)
  }

  function ForestCount(id: string, cs: seq<Node>): nat {
    if cs == [] then 0 else Count(id, cs[0]) + ForestCount(id, cs[1..])
  }

  lemma ForestCountConcat(id: string, a: seq<Node>, b: seq<Node>)
    ensures ForestCount(id, a + b) == ForestCount(id, a) + ForestCount(id, b)
  {
    if a == [] {
      assert a + b == b;
    } else {
      assert (a + b)[1..] == a[1..] + b;
      ForestCountConcat(id, a[1..], b);
    }
  }

  lemma ForestCountReplace(id: string, cs: seq<Node>, i: nat, x: Node)
    requires i < |cs|
    ensures ForestCount(id, cs[i := x]) + Count(id, cs[i]) == ForestCount(id, cs) + Count(id, x)
  {
    assert cs == cs[..i] + [cs[i]] + cs[i + 1..];
    assert cs[i := x] == cs[..i] + [x] + cs[i + 1..];
    ForestCountConcat(id, cs[..i] + [cs[i]], cs[i + 1..]);
    ForestCountConcat(id, cs[..i], [cs[i]]);
    ForestCountConcat(id, cs[..i] + [x], cs[i + 1..]);
    ForestCountConcat(id, cs[..i], [x]);
  }

  /** A node's count is its own contribution, its children's and its shadow tree's. */
  lemma CountSplit(id: string, m: Node, cs: seq<Node>)
    ensures Count(id, m.(children := cs)) + ForestCount(id, m.children) == Count(id, m) + ForestCount(id, cs)
  {
  }

  lemma CountRemoveChild(id: string, m: Node, i: nat)
    requires i < |m.children|
    ensures Count(id, Apply(RemoveChild(i), m)) + Count(id, m.children[i]) == Count(id, m)
  {
    var cs := m.children;
    var a, b := cs[..i], cs[i + 1..];
    assert cs == a + [cs[i]] + b;
    assert Apply(RemoveChild(i), m) == m.(children := a + b);
    ForestCountConcat(id, a + [cs[i]], b);
    ForestCountConcat(id, a, [cs[i]]);
    ForestCountConcat(id, a, b);
    assert ForestCount(id, [cs[i]]) == Count(id, cs[i]);
    CountSplit(id, m, a + b);
  }

  lemma CountApply(id: string, e: Edit, m: Node)
    ensures e.Prepend? || e.Append? ==> Count(id, Apply(e, m)) == Count(id, m) + Count(id, e.node)
    ensures e.RemoveChild? && e.index < |m.children| ==>
      Count(id, Apply(e, m)) + Count(id, m.children[e.index]) == Count(id, m)
  {
    match e
    case Prepend(c) =>
      ForestCountConcat(id, [c], m.children);
      assert ForestCount(id, [c]) == Count(id, c);
      CountSplit(id, m, [c] + m.children);
    case Append(c) =>
      ForestCountConcat(id, m.children, [c]);
      assert ForestCount(id, [c]) == Count(id, c);
      CountSplit(id, m, m.children + [c]);
    case RemoveChild(i) =>
      if i < |m.children| {
        CountRemoveChild(id, m, i);
      }
  }

  /** An edit changes the count of an id by exactly what it changes at the edited node. */
  lemma CountUpdate(id: string, n: Node, p: Path, e: Edit)
    requires At(n, p).Some?
    ensures Count(id, Update(n, p, e)) + Count(id, At(n, p).value)
         == Count(id, n) + Count(id, Apply(e, At(n, p).value))
    decreases p
  {
    if p != [] {
      match p[0]
      case Child(i) =>
        var u := Update(n.children[i], p[1..], e);
        assert Update(n, p, e) == n.(children := n.children[i := u]);
        CountUpdate(id, n.children[i], p[1..], e);
        ForestCountReplace(id, n.children, i, u);
        CountSplit(id, n, n.children[i := u]);
      case IntoShadow =>
        var u := Update(ShadowTree(n), p[1..], e);
        assert Update(n, p, e) == n.(shadowRoot := ShadowRoot(u.children));
        CountUpdate(id, ShadowTree(n), p[1..], e);
    }
  }

  lemma ChildCount(id: string, cs: seq<Node>, i: nat)
    requires i < |cs|
    ensures Count(id, cs[i]) <= ForestCount(id, cs)
  {
    if i > 0 {
      ChildCount(id, cs[1..], i - 1);
    }
  }

  /** A subtree holds no more elements with a given id than the whole tree. */
  lemma CountAt(id: string, n: Node, p: Path)
    requires At(n, p).Some?
    ensures Count(id, At(n, p).value) <= Count(id, n)
    decreases p
  {
    if p != [] {
      match p[0]
      case Child(i) =>
        ChildCount(id, n.children, i);
        CountAt(id, n.children[i], p[1..]);
      case IntoShadow =>
        CountAt(id, ShadowTree(n), p[1..]);
    }
  }

  /** Below a node, a strict descendant's count adds to the node's own contribution. */
  lemma CountBelow(id: string, n: Node, q: Path)
    requires q != [] && At(n, q).Some?
    ensures Count(id, n) >= (if n.Element? && n.id == id then 1 else 0) + Count(id, At(n, q).value)
  {
    match q[0]
    case Child(i) =>
      ChildCount(id, n.children, i);
      CountAt(id, n.children[i], q[1..]);
    case IntoShadow =>
      CountAt(id, ShadowTree(n), q[1..]);
  }

  lemma TwoChildrenCount(id: string, cs: seq<Node>, i: nat, j: nat)
    requires i < j < |cs|
    ensures Count(id, cs[i]) + Count(id, cs[j]) <= ForestCount(id, cs)
  {
    if i > 0 {
      TwoChildrenCount(id, cs[1..], i - 1, j - 1);
    } else {
      ChildCount(id, cs[1..], j - 1);
    }
  }

  /** Two different references to elements carrying `id` make the count of `id` at least two. */
  lemma {:induction false} DistinctHitsCount(id: string, n: Node, p: Path, q: Path)
    requires p != q && Hits(IdIs(id), n, p) && Hits(IdIs(id), n, q)
    ensures Count(id, n) >= 2
    decreases p
  {
    if p == [] {
      CountBelow(id, n, q);
    } else if q == [] {
      CountBelow(id, n, p);
    } else if p[0] == q[0] {
      assert p == [p[0]] + p[1..] && q == [q[0]] + q[1..];
      AtAppend(n, [p[0]], p[1..]);
      AtAppend(n, [q[0]], q[1..]);
      var m := At(n, [p[0]]).value;
      DistinctHitsCount(id, m, p[1..], q[1..]);
      CountBelow(id, n, [p[0]]);
    } else {
      match p[0]
      case IntoShadow =>
        CountAt(id, ShadowTree(n), p[1..]);
        ChildCount(id, n.children, q[0].index);
        CountAt(id, n.children[q[0].index], q[1..]);
      case Child(i) =>
        CountAt(id, n.children[i], p[1..]);
        if q[0].IntoShadow? {
          ChildCount(id, n.children, i);
          CountAt(id, ShadowTree(n), q[1..]);
        } else {
          var j := q[0].index;
          CountAt(id, n.children[j], q[1..]);
          if i < j {
            TwoChildrenCount(id, n.children, i, j);
          } else {
            TwoChildrenCount(id, n.children, j, i);
          }
        }
    }
  }

  /** With at most one element carrying `id`, any reference to such an element is the one `getElementById` finds. */
  lemma GetElementByIdUnique(n: Node, id: string, p: Path)
    requires Count(id, n) <= 1 && p != [] && IsLight(p) && Hits(IdIs(id), n, p)
    ensures GetElementById(n, id) == Some(p)
  {
    var r := GetElementById(n, id);
    if r.value != p {
      DistinctHitsCount(id, n, r.value, p);
    }
  }

  /** `m` has the same light tree as `n`: the same light references, each to a node with the same label. */
  predicate SameLightTree(n: Node, m: Node) {
    Descendants(m) == Descendants(n)
    && forall p :: p in Descendants(n) ==>
         At(n, p).Some? && At(m, p).Some? && SameLabel(At(m, p).value, At(n, p).value)
  }

  lemma SubtreesReplace(cs: seq<Node>, i: nat, x: Node, k: nat)
    requires i < |cs| && Descendants(x) == Descendants(cs[i])
    ensures Subtrees(cs[i := x], k) == Subtrees(cs, k)
    decreases |cs| - k
  {
    if k < |cs| {
      SubtreesReplace(cs, i, x, k + 1);
    }
  }

  /** An edit made inside a shadow root leaves the light tree (what `getElementById` sees) as it was. */
  lemma ShadowEditKeepsLightTree(n: Node, a: Path, e: Edit)
    requires !IsLight(a)
    ensures SameLightTree(n, Update(n, a, e))
    decreases a
  {
    var m := Update(n, a, e);
    match a[0]
    case IntoShadow =>
      assert m.children == n.children;
      forall p: Path | p in Descendants(n)
        ensures At(n, p).Some? && At(m, p).Some? && SameLabel(At(m, p).value, At(n, p).value)
      {
        DescendantsSound(n, p);
      }
    case Child(i) =>
      if i < |n.children| {
        var cs := n.children;
        var x := Update(cs[i], a[1..], e);
        assert !IsLight(a[1..]) by {
          var k :| 0 <= k < |a| && !a[k].Child?;
          assert a[1..][k - 1] == a[k];
        }
        ShadowEditKeepsLightTree(cs[i], a[1..], e);
        SubtreesReplace(cs, i, x, 0);
        forall p: Path | p in Descendants(n)
          ensures At(n, p).Some? && At(m, p).Some? && SameLabel(At(m, p).value, At(n, p).value)
        {
          DescendantsSound(n, p);
          var r := p[1..];
          if p[0].index == i && r != [] {
            assert IsLight(r) by {
              forall j | 0 <= j < |r| ensures r[j].Child? {
                assert r[j] == p[j + 1];
              }
            }
            DescendantsComplete(cs[i], r);
          }
        }
      } else {
        forall p: Path | p in Descendants(n) ensures At(n, p).Some? {
          DescendantsSound(n, p);
        }
      }
  }

  lemma FilterIdSameLabels(id: string, n: Node, m: Node, ps: seq<Path>)
    requires forall p :: p in ps ==> At(n, p).Some? && At(m, p).Some? && SameLabel(At(m, p).value, At(n, p).value)
    ensures Filter(IdIs(id), m, ps) == Filter(IdIs(id), n, ps)
  {
    if ps != [] {
      FilterIdSameLabels(id, n, m, ps[1..]);
    }
  }

  lemma GetElementByIdSameLightTree(n: Node, m: Node, id: string)
    requires SameLightTree(n, m)
    ensures GetElementById(m, id) == GetElementById(n, id)
  {
    FilterIdSameLabels(id, n, m, Descendants(n));
  }
}
