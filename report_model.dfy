/**
 * The report tree that the ExtentReports library keeps and the adapter fills.
 * Every test node ever created lives in one arena, `seq<Node>`, indexed by
 * creation order; a node names its parent by index, and a node that
 * `removeTest` took out of its parent's children stays in the arena with
 * `attached == false`. The library operations the adapter calls
 * (createTest, createNode, log, assignCategory, removeTest, setDescription)
 * are the pure functions below. A node's status is derived from its log
 * entries by the library and is not stored here.
 */
module ReportModel {
  import opened Wrappers

  datatype Status = Info | Pass | Warning | Skip | Fail

  /** The error a runner attaches to a step result. */
  datatype Throwable = Throwable(className: string, message: string)

  /** MarkupHelper output, kept symbolic: a code block or a table whose cells
    * may be null (None). */
  datatype Markup = CodeBlock(content: string) | Table(cells: seq<seq<Option<string>>>)

  datatype Detail = Text(text: string) | Thrown(error: Option<Throwable>) | Rendered(markup: Markup)

  /** Media attached to a log entry; the base64 encoding of the bytes is not modelled. */
  datatype Media = ScreenCapturePath(path: string) | ScreenCaptureBase64(data: seq<bv8>)

  datatype Log = Log(status: Status, detail: Detail, media: Option<Media>)

  /** The Gherkin model class a node was created with. Hooks and embed holders
    * are Asterisk nodes; a step carries its trimmed keyword. */
  datatype Kind = Feature | ScenarioOutline | Scenario | Step(keyword: string) | Asterisk

  datatype Node = Node(
    kind: Kind,
    name: string,
    description: Option<string>,
    parent: Option<nat>,
    attached: bool,
    logs: seq<Log>,
    categories: set<string>)

  /** A fresh node as createTest / createNode build it. */
  function NewNode(kind: Kind, name: string, description: Option<string>, parent: Option<nat>): Node {
    Node(kind, name, description, parent, true, [], {})
  }

  /** Parents are created before their children, so parent links point backwards. */
  ghost predicate WellFormed(ns: seq<Node>) {
    forall i :: 0 <= i < |ns| && ns[i].parent.Some? ==> ns[i].parent.value < i
  }

  // ---------------------------------------------------------------- library operations

  /** ExtentTest.log / pass / fail / skip / info: append one entry. */
  function AddLog(ns: seq<Node>, id: nat, entry: Log): (r: seq<Node>)
    requires id < |ns|
    ensures |r| == |ns| && r[id].logs == ns[id].logs + [entry]
    ensures forall i :: 0 <= i < |ns| && i != id ==> r[i] == ns[i]
    ensures Grows(ns, r)
  {
    ns[id := ns[id].(logs := ns[id].logs + [entry])]
  }

  /** ExtentTest.assignCategory, once per tag. */
  function AddCategories(ns: seq<Node>, id: nat, tags: set<string>): (r: seq<Node>)
    requires id < |ns|
    ensures |r| == |ns| && r[id].categories == ns[id].categories + tags
    ensures forall i :: 0 <= i < |ns| && i != id ==> r[i] == ns[i]
    ensures Grows(ns, r)
  {
    ns[id := ns[id].(categories := ns[id].categories + tags)]
  }

  /** Assigning two batches of categories is assigning their union. */
  lemma AddCategoriesTwice(ns: seq<Node>, id: nat, a: set<string>, b: set<string>)
    requires id < |ns|
    ensures AddCategories(AddCategories(ns, id, a), id, b) == AddCategories(ns, id, a + b)
  {
    assert AddCategories(AddCategories(ns, id, a), id, b)[id] == AddCategories(ns, id, a + b)[id];
  }

  lemma AddNoCategories(ns: seq<Node>, id: nat)
    requires id < |ns|
    ensures AddCategories(ns, id, {}) == ns
  {
    assert AddCategories(ns, id, {})[id] == ns[id];
  }

  /** Test.setDescription. */
  function SetDescription(ns: seq<Node>, id: nat, d: string): (r: seq<Node>)
    requires id < |ns|
    ensures |r| == |ns| && r[id].description == Some(d)
    ensures forall i :: 0 <= i < |ns| && i != id ==> r[i] == ns[i]
  {
    ns[id := ns[id].(description := Some(d))]
  }

  /** ExtentReports.removeTest: the node leaves its parent's children. */
  function Detach(ns: seq<Node>, id: nat): (r: seq<Node>)
    requires id < |ns|
    ensures |r| == |ns| && !r[id].attached
    ensures forall i :: 0 <= i < |ns| && i != id ==> r[i] == ns[i]
    ensures Grows(ns, r)
  {
    ns[id := ns[id].(attached := false)]
  }

  // ---------------------------------------------------------------- children

  /** The children of `p` (None: the report's top-level tests), in the order
    * they were created, leaving out removed ones. */
  function ChildrenOf(ns: seq<Node>, p: Option<nat>): (r: seq<nat>)
    ensures forall k :: 0 <= k < |r| ==> r[k] < |ns|
    decreases |ns|
  {
    if |ns| == 0 then []
    else
      var init := ChildrenOf(ns[..|ns| - 1], p);
      var last := ns[|ns| - 1];
      if last.parent == p && last.attached then init + [|ns| - 1] else init
  }

  /** A node is listed among the children of `p` exactly when it is attached and
    * its parent is `p`, and the list is in creation order. */
  lemma {:induction false} ChildrenOfExact(ns: seq<Node>, p: Option<nat>)
    ensures forall j :: j in ChildrenOf(ns, p) <==> 0 <= j < |ns| && ns[j].parent == p && ns[j].attached
    ensures forall a, b :: 0 <= a < b < |ChildrenOf(ns, p)| ==> ChildrenOf(ns, p)[a] < ChildrenOf(ns, p)[b]
    decreases |ns|
  {
    if |ns| > 0 {
      var pre := ns[..|ns| - 1];
      ChildrenOfExact(pre, p);
      assert forall j :: 0 <= j < |pre| ==> pre[j] == ns[j];
    }
  }

  /** Creating a node appends it to its parent's children and leaves every
    * other node's children as they were. */
  lemma ChildrenOfAppend(ns: seq<Node>, n: Node, p: Option<nat>)
    ensures ChildrenOf(ns + [n], p) ==
            ChildrenOf(ns, p) + (if n.parent == p && n.attached then [|ns|] else [])
  {
    assert (ns + [n])[..|ns|] == ns;
  }

  /** Two arenas with the same parents and the same attached flags have the
    * same children everywhere: logs, categories and descriptions do not matter. */
  lemma {:induction false} ChildrenOfSameShape(ns: seq<Node>, ms: seq<Node>, p: Option<nat>)
    requires |ns| == |ms|
    requires forall i :: 0 <= i < |ns| ==> ns[i].parent == ms[i].parent && ns[i].attached == ms[i].attached
    ensures ChildrenOf(ns, p) == ChildrenOf(ms, p)
    decreases |ns|
  {
    if |ns| > 0 {
      ChildrenOfSameShape(ns[..|ns| - 1], ms[..|ms| - 1], p);
    }
  }

  /** A node appended and then given categories: the old arena is a prefix, and
    * the new node joins its parent's children, last. */
  lemma AppendWithCategories(ns: seq<Node>, n: Node, cats: set<string>, p: Option<nat>)
    ensures var r := AddCategories(ns + [n], |ns|, cats);
            && |r| == |ns| + 1 && r[..|ns|] == ns
            && r[|ns|] == n.(categories := n.categories + cats)
            && ChildrenOf(r, p) == ChildrenOf(ns, p) + (if n.parent == p && n.attached then [|ns|] else [])
  {
    var grown := ns + [n];
    var r := AddCategories(grown, |ns|, cats);
    ChildrenOfAppend(ns, n, p);
    assert forall i :: 0 <= i < |grown| ==> r[i].parent == grown[i].parent && r[i].attached == grown[i].attached;
    ChildrenOfSameShape(grown, r, p);
    assert r[..|ns|] == ns;
  }

  /** The sequence without the value `x`. */
  function Without(xs: seq<nat>, x: nat): (r: seq<nat>)
    ensures forall y :: y in r <==> y in xs && y != x
    decreases |xs|
  {
    if |xs| == 0 then []
    else if xs[|xs| - 1] == x then Without(xs[..|xs| - 1], x)
    else Without(xs[..|xs| - 1], x) + [xs[|xs| - 1]]
  }

  lemma {:induction false} WithoutAbsent(xs: seq<nat>, x: nat)
    requires x !in xs
    ensures Without(xs, x) == xs
    decreases |xs|
  {
    if |xs| > 0 {
      WithoutAbsent(xs[..|xs| - 1], x);
      assert xs[..|xs| - 1] + [xs[|xs| - 1]] == xs;
    }
  }

  lemma WithoutSnoc(xs: seq<nat>, y: nat, x: nat)
    ensures Without(xs + [y], x) == if y == x then Without(xs, x) else Without(xs, x) + [y]
  {
    assert (xs + [y])[..|xs|] == xs;
  }

  /** Detaching the last node: it leaves its parent's children, nothing else changes. */
  lemma ChildrenOfDetachLast(ns: seq<Node>, p: Option<nat>)
    requires |ns| > 0
    ensures ChildrenOf(Detach(ns, |ns| - 1), p) == Without(ChildrenOf(ns, p), |ns| - 1)
  {
    var id := |ns| - 1;
    var pre := ns[..id];
    assert Detach(ns, id)[..id] == pre;
    ChildrenOfExact(pre, p);
    WithoutAbsent(ChildrenOf(pre, p), id);
    if ns[id].parent == p && ns[id].attached {
      WithoutSnoc(ChildrenOf(pre, p), id, id);
    }
  }

  /** removeTest takes exactly that node out of its parent's children, keeping
    * the order of the others, and changes no other child list. */
  lemma {:induction false} ChildrenOfDetach(ns: seq<Node>, id: nat, p: Option<nat>)
    requires id < |ns|
    ensures ChildrenOf(Detach(ns, id), p) == Without(ChildrenOf(ns, p), id)
    decreases |ns|
  {
    if id == |ns| - 1 {
      ChildrenOfDetachLast(ns, p);
    } else {
      var ds := Detach(ns, id);
      var pre := ns[..|ns| - 1];
      var last := ns[|ns| - 1];
      assert ds[..|ds| - 1] == Detach(pre, id);
      assert ds[|ds| - 1] == last;
      ChildrenOfDetach(pre, id, p);
      if last.parent == p && last.attached {
        WithoutSnoc(ChildrenOf(pre, p), |ns| - 1, id);
      }
    }
  }

  // ---------------------------------------------------------------- growth

  /** How one node may evolve while the run goes on: kind, name and parent are
    * fixed at creation, logs are only appended, categories only accumulate, a
    * description is only extended, and a removed node is never put back. */
  ghost predicate NodeGrows(a: Node, b: Node) {
    && b.kind == a.kind && b.name == a.name && b.parent == a.parent
    && a.logs <= b.logs
    && a.categories <= b.categories
    && (a.description.Some? ==> b.description.Some? && a.description.value <= b.description.value)
    && (b.attached ==> a.attached)
  }

  /** The arena `b` is `a` after some run of library operations: no node is lost. */
  ghost predicate Grows(a: seq<Node>, b: seq<Node>) {
    |a| <= |b| && forall i :: 0 <= i < |a| ==> NodeGrows(a[i], b[i])
  }

  lemma GrowsAppend(ns: seq<Node>, n: Node)
    ensures Grows(ns, ns + [n])
  {
  }

  lemma GrowsReflexive(ns: seq<Node>)
    ensures Grows(ns, ns)
  {
  }

  /** Rewriting a description so that the old one is a prefix of the new one. */
  lemma GrowsExtendDescription(ns: seq<Node>, id: nat, d: string)
    requires id < |ns|
    requires ns[id].description.Some? ==> ns[id].description.value <= d
    ensures Grows(ns, SetDescription(ns, id, d))
  {
  }

  lemma GrowsTransitive(a: seq<Node>, b: seq<Node>, c: seq<Node>)
    requires Grows(a, b) && Grows(b, c)
    ensures Grows(a, c)
  {
    forall i | 0 <= i < |a| ensures NodeGrows(a[i], c[i]) {
      assert NodeGrows(a[i], b[i]) && NodeGrows(b[i], c[i]);
    }
  }

  /** The ExtentReports instance: the test arena and the system-info table. */
  class Report {
    var nodes: seq<Node>
    var systemInfo: seq<(string, string)>

    constructor ()
      ensures nodes == [] && systemInfo == []
    {
      nodes := [];
      systemInfo := [];
    }

    /** createTest (no parent) and ExtentTest.createNode (a parent). */
    method CreateNode(n: Node) returns (id: nat)
      modifies this
      ensures id == |old(nodes)| && nodes == old(nodes) + [n]
      ensures systemInfo == old(systemInfo)
    {
      id := |nodes|;
      nodes := nodes + [n];
    }

    method AddEntry(id: nat, entry: Log)
      requires id < |nodes|
      modifies this
      ensures nodes == AddLog(old(nodes), id, entry) && systemInfo == old(systemInfo)
    {
      nodes := nodes[id := nodes[id].(logs := nodes[id].logs + [entry])];
    }

    method AssignCategories(id: nat, tags: set<string>)
      requires id < |nodes|
      modifies this
      ensures nodes == AddCategories(old(nodes), id, tags) && systemInfo == old(systemInfo)
    {
      nodes := nodes[id := nodes[id].(categories := nodes[id].categories + tags)];
    }

    method SetTestDescription(id: nat, d: string)
      requires id < |nodes|
      modifies this
      ensures nodes == SetDescription(old(nodes), id, d) && systemInfo == old(systemInfo)
    {
      nodes := nodes[id := nodes[id].(description := Some(d))];
    }

    /** ExtentReports.setSystemInfo: one more name/value row. */
    method SetSystemInfo(name: string, value: string)
      modifies this
      ensures systemInfo == old(systemInfo) + [(name, value)] && nodes == old(nodes)
    {
      systemInfo := systemInfo + [(name, value)];
    }

    method RemoveTest(id: nat)
      requires id < |nodes|
      modifies this
      ensures nodes == Detach(old(nodes), id) && systemInfo == old(systemInfo)
    {
      nodes := nodes[id := nodes[id].(attached := false)];
    }
  }
}
