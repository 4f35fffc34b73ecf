/** The slice of the page's DOM that yielding touches (content.js): a fixed
    list of parent elements, each with a connected flag and an ordered list of
    child nodes. Parents are named by their position in the list. Only the
    sidebar iframe and the comment anchor ever move; other children are
    opaque. `remove`, `insertBefore` and `appendChild` follow the DOM: a node
    that is inserted somewhere is first taken out of wherever it was. */
module Dom {
  import opened JsStrings

  datatype Node = Frame | Anchor | Other(id: nat)
  datatype Parent = Parent(connected: bool, kids: seq<Node>)
  type Tree = seq<Parent>

  /** `n` is a child of at most one parent, and at most once there. */
  predicate AtMostOnce(t: Tree, n: Node) {
    var p := ParentOf(t, n);
    p.None? || (multiset(t[p.value].kids)[n] == 1 && forall j :: p.value < j < |t| ==> n !in t[j].kids)
  }

  predicate Absent(t: Tree, n: Node) {
    forall i :: 0 <= i < |t| ==> n !in t[i].kids
  }

  /** The first position of `n` in `s`, or |s| when it is not there. */
  function IndexOf(s: seq<Node>, n: Node): (i: nat)
    ensures i <= |s|
    ensures i < |s| ==> s[i] == n
    ensures forall j :: 0 <= j < i ==> s[j] != n
    ensures i == |s| <==> n !in s
  {
    if s == [] then 0
    else if s[0] == n then 0
    else 1 + IndexOf(s[1..], n)
  }

  /** `node.parentNode`, as the index of the first parent holding the node. */
  function ParentOf(t: Tree, n: Node): (r: Option<nat>)
    ensures r.Some? ==> r.value < |t| && n in t[r.value].kids
  {
    if t == [] then None
    else if n in t[0].kids then Some(0)
    else
      var r := ParentOf(t[1..], n);
      if r.None? then None else Some(r.value + 1)
  }

  /** ParentOf finds the first parent holding the node, and finds none exactly when no parent does. */
  lemma {:induction false} ParentOfFirst(t: Tree, n: Node)
    ensures var r := ParentOf(t, n);
      && (r.Some? ==> forall i :: 0 <= i < r.value ==> n !in t[i].kids)
      && (r.None? <==> Absent(t, n))
  {
    if t != [] && n !in t[0].kids {
      ParentOfFirst(t[1..], n);
      assert forall i :: 1 <= i < |t| ==> t[i] == t[1..][i - 1];
    }
  }

  /** `node.isConnected`. */
  predicate IsConnected(t: Tree, n: Node) {
    var p := ParentOf(t, n);
    p.Some? && t[p.value].connected
  }

  /** `s` with every occurrence of `n` taken out. */
  function Filter(s: seq<Node>, n: Node): (r: seq<Node>)
    ensures n !in r
    ensures forall m :: m in r <==> m in s && m != n
    ensures forall m :: multiset(r)[m] == if m == n then 0 else multiset(s)[m]
  {
    if s == [] then []
    else
      assert s == [s[0]] + s[1..];
      if s[0] == n then Filter(s[1..], n)
    else [s[0]] + Filter(s[1..], n)
  }

  lemma {:induction false} FilterAbsent(s: seq<Node>, n: Node)
    requires n !in s
    ensures Filter(s, n) == s
  {
    if s != [] {
      FilterAbsent(s[1..], n);
      assert [s[0]] + s[1..] == s;
    }
  }

  lemma {:induction false} FilterAppend(a: seq<Node>, b: seq<Node>, n: Node)
    ensures Filter(a + b, n) == Filter(a, n) + Filter(b, n)
  {
    if a == [] {
      assert a + b == b;
    } else {
      assert (a + b)[0] == a[0] && (a + b)[1..] == a[1..] + b;
      FilterAppend(a[1..], b, n);
    }
  }

  /** Taking a node out of the middle of a list it occurs in once. */
  lemma FilterAt(s: seq<Node>, i: nat, n: Node)
    requires i < |s| && s[i] == n && n !in s[..i] && n !in s[i + 1..]
    ensures Filter(s, n) == s[..i] + s[i + 1..]
  {
    assert s == s[..i] + [n] + s[i + 1..];
    FilterAppend(s[..i] + [n], s[i + 1..], n);
    FilterAppend(s[..i], [n], n);
    FilterAbsent(s[..i], n);
    FilterAbsent(s[i + 1..], n);
    assert [n][1..] == [];
  }

  /** `n.remove()`. */
  function Remove(t: Tree, n: Node): (r: Tree)
    ensures |r| == |t|
    ensures Absent(r, n)
    ensures forall i :: 0 <= i < |t| ==> r[i] == t[i].(kids := Filter(t[i].kids, n))
  {
    seq(|t|, i requires 0 <= i < |t| => t[i].(kids := Filter(t[i].kids, n)))
  }

  /** `t[p].insertBefore(n, ref)`. */
  function InsertBefore(t: Tree, p: nat, n: Node, ref: Node): (r: Tree)
    requires p < |t| && ref != n && ref in t[p].kids
    ensures |r| == |t|
  {
    var u := Remove(t, n);
    var k := u[p].kids;
    var i := IndexOf(k, ref);
    u[p := u[p].(kids := k[..i] + [n] + k[i..])]
  }

  /** `t[p].appendChild(n)`. */
  function AppendChild(t: Tree, p: nat, n: Node): (r: Tree)
    requires p < |t|
    ensures |r| == |t|
    ensures r[p].kids == Filter(t[p].kids, n) + [n]
  {
    var u := Remove(t, n);
    u[p := u[p].(kids := u[p].kids + [n])]
  }

  /** Removing a node that is not in the tree changes nothing. */
  lemma RemoveAbsent(t: Tree, n: Node)
    requires Absent(t, n)
    ensures Remove(t, n) == t
  {
    forall i | 0 <= i < |t| ensures Remove(t, n)[i] == t[i] {
      FilterAbsent(t[i].kids, n);
    }
  }

  /** Trees whose parents hold `n` in the same places agree on its parent. */
  lemma SameParent(t: Tree, u: Tree, n: Node)
    requires |t| == |u| && forall i :: 0 <= i < |t| ==> (n in t[i].kids <==> n in u[i].kids)
    ensures ParentOf(t, n) == ParentOf(u, n)
  {
    var a, b := ParentOf(t, n), ParentOf(u, n);
    ParentOfFirst(t, n);
    ParentOfFirst(u, n);
    assert a.Some? ==> n in u[a.value].kids;
    assert b.Some? ==> n in t[b.value].kids;
  }

  /** A node that occurs once sits nowhere else: not earlier or later in its
      own parent's list and not in any other parent. */
  lemma OnceAt(t: Tree, n: Node, p: nat, i: nat)
    requires AtMostOnce(t, n) && p < |t| && i < |t[p].kids| && t[p].kids[i] == n
    ensures n !in t[p].kids[..i] && n !in t[p].kids[i + 1..]
    ensures forall j :: 0 <= j < |t| && j != p ==> n !in t[j].kids
    ensures ParentOf(t, n) == Some(p)
    ensures IndexOf(t[p].kids, n) == i
  {
    var q := ParentOf(t, n);
    ParentOfFirst(t, n);
    assert n in t[p].kids;
    assert q.Some? && q.value <= p;
    var k := t[p].kids;
    assert k == k[..i] + [n] + k[i + 1..];
    assert multiset(k)[n] == multiset(k[..i])[n] + 1 + multiset(k[i + 1..])[n];
  }

  /** Removing a node that occurs once shortens only its own parent's list. */
  lemma RemoveOnce(t: Tree, n: Node, p: nat, i: nat)
    requires AtMostOnce(t, n) && p < |t| && i < |t[p].kids| && t[p].kids[i] == n
    ensures Remove(t, n) == t[p := t[p].(kids := t[p].kids[..i] + t[p].kids[i + 1..])]
  {
    OnceAt(t, n, p, i);
    FilterAt(t[p].kids, i, n);
    forall j | 0 <= j < |t| && j != p ensures Remove(t, n)[j] == t[j] {
      FilterAbsent(t[j].kids, n);
    }
  }

  lemma AbsentIsOnce(t: Tree, n: Node)
    requires Absent(t, n)
    ensures AtMostOnce(t, n)
  {
  }

  /** Removing any node keeps every node's at-most-once property. */
  lemma RemoveKeepsOnce(t: Tree, n: Node, m: Node)
    requires AtMostOnce(t, m)
    ensures AtMostOnce(Remove(t, n), m)
  {
    if m != n {
      SameCounts(t, Remove(t, n), m);
    }
  }

  /** Where a node that occurs only in parent `p` has its parent. */
  lemma OnlyIn(t: Tree, n: Node, p: nat)
    requires p < |t| && n in t[p].kids && forall j :: 0 <= j < |t| && j != p ==> n !in t[j].kids
    ensures ParentOf(t, n) == Some(p)
  {
    var q := ParentOf(t, n);
    ParentOfFirst(t, n);
    assert !Absent(t, n);
    assert n in t[q.value].kids;
  }

  /** The inserted node occurs exactly once, right before `ref`. */
  lemma InsertBeforeOnce(t: Tree, p: nat, n: Node, ref: Node)
    requires p < |t| && ref != n && ref in t[p].kids
    ensures AtMostOnce(InsertBefore(t, p, n, ref), n)
  {
    var u := Remove(t, n);
    var k := u[p].kids;
    var i := IndexOf(k, ref);
    var r := InsertBefore(t, p, n, ref);
    assert k == k[..i] + k[i..];
    assert r[p].kids == k[..i] + [n] + k[i..];
    assert multiset(r[p].kids)[n] == multiset(k[..i])[n] + 1 + multiset(k[i..])[n];
    assert r[p].kids[i] == n;
    forall j | 0 <= j < |t| && j != p ensures n !in r[j].kids {
      assert r[j] == u[j];
    }
    OnlyIn(r, n, p);
  }

  /** The appended node occurs exactly once, last in its new parent. */
  lemma AppendChildOnce(t: Tree, p: nat, n: Node)
    requires p < |t|
    ensures AtMostOnce(AppendChild(t, p, n), n)
  {
    var r := AppendChild(t, p, n);
    assert multiset(r[p].kids)[n] == multiset(Filter(t[p].kids, n))[n] + 1;
    assert r[p].kids[|r[p].kids| - 1] == n;
    forall j | 0 <= j < |t| && j != p ensures n !in r[j].kids {
      assert r[j] == Remove(t, n)[j];
    }
    OnlyIn(r, n, p);
  }

  /** Inserting a node that is not in the tree before a node that occurs once. */
  lemma InsertBeforeAt(t: Tree, p: nat, n: Node, ref: Node, i: nat)
    requires Absent(t, n) && AtMostOnce(t, ref) && ref != n
    requires p < |t| && i < |t[p].kids| && t[p].kids[i] == ref
    ensures InsertBefore(t, p, n, ref) == t[p := t[p].(kids := t[p].kids[..i] + [n] + t[p].kids[i..])]
  {
    RemoveAbsent(t, n);
    OnceAt(t, ref, p, i);
  }

  /** Trees that hold `m` the same number of times in each parent agree on its at-most-once property. */
  lemma SameCounts(t: Tree, u: Tree, m: Node)
    requires |t| == |u|
    requires forall i :: 0 <= i < |t| ==> multiset(t[i].kids)[m] == multiset(u[i].kids)[m]
    ensures AtMostOnce(t, m) <==> AtMostOnce(u, m)
  {
    forall i | 0 <= i < |t| ensures m in t[i].kids <==> m in u[i].kids {
      assert m in t[i].kids <==> multiset(t[i].kids)[m] > 0;
      assert m in u[i].kids <==> multiset(u[i].kids)[m] > 0;
    }
    SameParent(t, u, m);
  }

  /** Inserting `n` into a list leaves the count of every other node alone. */
  lemma InsertCount(k: seq<Node>, i: nat, n: Node, m: Node)
    requires i <= |k| && m != n
    ensures multiset(k[..i] + [n] + k[i..])[m] == multiset(k)[m]
  {
    assert k == k[..i] + k[i..];
  }

  /** Inserting a node keeps every other node's at-most-once property. */
  lemma InsertKeepsOnce(t: Tree, p: nat, n: Node, ref: Node, m: Node)
    requires p < |t| && ref != n && ref in t[p].kids
    requires m != n && AtMostOnce(t, m)
    ensures AtMostOnce(InsertBefore(t, p, n, ref), m)
  {
    var u := Remove(t, n);
    RemoveKeepsOnce(t, n, m);
    var k := u[p].kids;
    var i := IndexOf(k, ref);
    var r := InsertBefore(t, p, n, ref);
    InsertCount(k, i, n, m);
    SameCounts(u, r, m);
  }

  /** Putting `a` in front of position `i` and then dropping the element that follows it. */
  lemma InsertThenDropNext(k: seq<Node>, i: nat, a: Node)
    requires i < |k|
    ensures var k2 := k[..i] + [a] + k[i..];
      k2[i] == a && k2[i + 1] == k[i] && k2[..i + 1] + k2[i + 2..] == k[..i] + [a] + k[i + 1..]
  {
    var k2 := k[..i] + [a] + k[i..];
    assert k2[..i + 1] == k[..i] + [a];
    assert k2[i + 2..] == k[i + 1..];
  }

  /** Replacing the element at position `i` by `a`. */
  lemma ReplaceAt(k: seq<Node>, i: nat, a: Node, m: Node)
    requires i < |k|
    ensures var k3 := k[..i] + [a] + k[i + 1..];
      && |k3| == |k| && k3[i] == a && k3[..i] == k[..i] && k3[i..] == [a] + k[i + 1..]
      && (k[i] == a ==> k3 == k)
      && (m !in k[..i] && m !in k[i + 1..] ==> (m in k3 <==> m == a) && (m == a ==> multiset(k3)[m] == 1))
  {
    var k3 := k[..i] + [a] + k[i + 1..];
    assert k3[i..] == [a] + k[i + 1..];
    if k[i] == a {
      assert k == k[..i] + [k[i]] + k[i + 1..];
    }
  }

  /** `x.parentNode.insertBefore(y, x)` followed by `x.remove()` puts `y` in
      `x`'s place and changes nothing else. */
  lemma Replace(t: Tree, p: nat, i: nat, x: Node, y: Node)
    requires AtMostOnce(t, x) && Absent(t, y) && x != y
    requires p < |t| && i < |t[p].kids| && t[p].kids[i] == x
    ensures var k := t[p].kids;
      Remove(InsertBefore(t, p, y, x), x) == t[p := t[p].(kids := k[..i] + [y] + k[i + 1..])]
  {
    var k := t[p].kids;
    InsertBeforeAt(t, p, y, x, i);
    var t2 := t[p := t[p].(kids := k[..i] + [y] + k[i..])];
    InsertThenDropNext(k, i, y);
    InsertKeepsOnce(t, p, y, x, x);
    RemoveOnce(t2, x, p, i + 1);
    assert t2[p := t2[p].(kids := k[..i] + [y] + k[i + 1..])] == t[p := t[p].(kids := k[..i] + [y] + k[i + 1..])];
  }
}
