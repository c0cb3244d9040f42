/** Intrusive linked lists: include/utlist.h. A list is a pointer to its first node; the ghost
    sequence of its nodes is what the macros' effects are stated on. */
module UtList {
  import opened Sequences
  import opened MergeSort

  class Node<T> {
    const data: T
    var next: Node?<T>
    var prev: Node?<T>

    constructor (data: T)
      ensures this.data == data && next == null && prev == null
    {
      this.data := data;
      next, prev := null, null;
    }
  }

  ghost predicate NextLinked<T>(s: seq<Node<T>>)
    reads s
  {
    forall k {:trigger s[k].next} :: 0 <= k < |s| - 1 ==> s[k].next == s[k + 1]
  }

  ghost predicate PrevLinked<T>(s: seq<Node<T>>)
    reads s
  {
    forall k {:trigger s[k].prev} :: 0 < k < |s| ==> s[k].prev == s[k - 1]
  }

  /** Links of a concatenation: those of the parts and the joint. */
  lemma LinkedConcat<T>(a: seq<Node<T>>, b: seq<Node<T>>)
    requires NextLinked(a) && NextLinked(b) && PrevLinked(a) && PrevLinked(b)
    requires a != [] && b != [] ==> a[|a| - 1].next == b[0] && b[0].prev == a[|a| - 1]
    ensures NextLinked(a + b) && PrevLinked(a + b)
  {
    var s := a + b;
    forall k {:trigger s[k].next} | 0 <= k < |s| - 1
      ensures s[k].next == s[k + 1]
    {
      assert s[k] == if k < |a| then a[k] else b[k - |a|];
    }
    forall k {:trigger s[k].prev} | 0 < k < |s|
      ensures s[k].prev == s[k - 1]
    {
      assert s[k] == if k < |a| then a[k] else b[k - |a|];
    }
  }

  /** The links of a list whose node at position at has been bypassed. */
  lemma Bypassed<T>(s: seq<Node<T>>, at: nat)
    requires at < |s|
    requires forall k {:trigger s[k].next} :: 0 <= k < |s| - 1 && k != at - 1 ==> s[k].next == s[k + 1]
    requires forall k {:trigger s[k].prev} :: 0 < k < |s| && k != at + 1 ==> s[k].prev == s[k - 1]
    requires 0 < at < |s| - 1 ==> s[at - 1].next == s[at + 1] && s[at + 1].prev == s[at - 1]
    ensures NextLinked(Without(s, at)) && PrevLinked(Without(s, at))
  {
    var t := Without(s, at);
    forall k {:trigger t[k].next} | 0 <= k < |t| - 1
      ensures t[k].next == t[k + 1]
    {
      assert t[k] == s[if k < at then k else k + 1];
    }
    forall k {:trigger t[k].prev} | 0 < k < |t|
      ensures t[k].prev == t[k - 1]
    {
      assert t[k] == s[if k < at then k else k + 1];
    }
  }

  /** A singly linked list. */
  ghost predicate IsLL<T>(head: Node?<T>, s: seq<Node<T>>)
    reads s
  {
    && Distinct(s) && NextLinked(s)
    && if s == [] then head == null else head == s[0] && s[|s| - 1].next == null
  }

  /** A doubly linked list: the head's prev is the tail, the tail's next is NULL. */
  ghost predicate IsDL<T>(head: Node?<T>, s: seq<Node<T>>)
    reads s
  {
    && Distinct(s) && NextLinked(s) && PrevLinked(s)
    && if s == [] then head == null
       else head == s[0] && s[0].prev == s[|s| - 1] && s[|s| - 1].next == null
  }

  /** A circular doubly linked list. */
  ghost predicate IsCDL<T>(head: Node?<T>, s: seq<Node<T>>)
    reads s
  {
    && Distinct(s) && NextLinked(s) && PrevLinked(s)
    && if s == [] then head == null
       else head == s[0] && s[0].prev == s[|s| - 1] && s[|s| - 1].next == s[0]
  }

  // ------------------------------------------------------------------ doubly linked lists

  class DList<T> {
    var head: Node?<T>
    ghost var nodes: seq<Node<T>>

    ghost predicate Valid()
      reads this, nodes
    {
      IsDL(head, nodes)
    }

    constructor ()
      ensures Valid() && nodes == []
    {
      head, nodes := null, [];
    }

    /** DL_PREPEND. */
    method Prepend(add: Node<T>)
      requires Valid() && add !in nodes
      modifies this, nodes, add
      ensures Valid() && nodes == [add] + old(nodes)
    {
      add.next := head;
      if head != null {
        add.prev := head.prev;
        head.prev := add;
      } else {
        add.prev := add;
      }
      head := add;
      nodes := [add] + nodes;
    }

    /** DL_APPEND. */
    method Append(add: Node<T>)
      requires Valid() && add !in nodes
      modifies this, nodes, add
      ensures Valid() && nodes == old(nodes) + [add]
    {
      if head != null {
        add.prev := head.prev;
        head.prev.next := add;
        head.prev := add;
        add.next := null;
      } else {
        head := add;
        head.prev := head;
        head.next := null;
      }
      nodes := nodes + [add];
    }

    /** DL_CONCAT; the second list's head is not a list of its own afterwards. */
    method Concat(head2: Node?<T>, ghost nodes2: seq<Node<T>>)
      requires Valid() && IsDL(head2, nodes2)
      requires Distinct(nodes + nodes2)
      modifies this, nodes, nodes2
      ensures Valid() && nodes == old(nodes) + nodes2
    {
      ghost var all, end := nodes + nodes2, |nodes| + |nodes2| - 1;
      assert nodes != [] && nodes2 != [] ==> all[|nodes| - 1] != all[end] == nodes2[|nodes2| - 1];
      if head2 != null {
        if head != null {
          var tmp := head2.prev;
          head2.prev := head.prev;
          head.prev.next := head2;
          head.prev := tmp;
        } else {
          head := head2;
        }
      }
      assert NextLinked(nodes) && NextLinked(nodes2) && PrevLinked(nodes) && PrevLinked(nodes2);
      assert nodes2 != [] ==> nodes2[|nodes2| - 1].next == null;
      LinkedConcat(nodes, nodes2);
      nodes := all;
    }

    /** DL_DELETE. */
    method Delete(del: Node<T>, ghost at: nat)
      requires Valid() && at < |nodes| && nodes[at] == del
      modifies this, nodes
      ensures Valid() && nodes == Without(old(nodes), at)
      ensures del.next == old(del.next) && del.prev == old(del.prev)
    {
      if del.prev == del {
        head := null;
      } else if del == head {
        del.next.prev := del.prev;
        head := del.next;
      } else {
        del.prev.next := del.next;
        if del.next != null {
          del.next.prev := del.prev;
        } else {
          head.prev := del.prev;
        }
      }
      Bypassed(nodes, at);
      nodes := Without(nodes, at);
    }

    /** DL_DELETE followed by DL_APPEND of the same node. */
    method MoveToTail(node: Node<T>, ghost at: nat)
      requires Valid() && at < |nodes| && nodes[at] == node
      modifies this, nodes
      ensures Valid() && nodes == Without(old(nodes), at) + [node]
    {
      hide NextLinked, PrevLinked;
      assert Distinct(nodes);
      Delete(node, at);
      Append(node);
    }

    /** DL_REPLACE_ELEM. */
    method ReplaceElem(el: Node<T>, add: Node<T>, ghost at: nat)
      requires Valid() && at < |nodes| && nodes[at] == el && add !in nodes
      modifies this, nodes, add
      ensures Valid() && nodes == old(nodes)[at := add]
    {
      if head == el {
        head := add;
        add.next := el.next;
        if el.next == null {
          add.prev := add;
        } else {
          add.prev := el.prev;
          add.next.prev := add;
        }
      } else {
        add.next := el.next;
        add.prev := el.prev;
        add.prev.next := add;
        if el.next == null {
          head.prev := add;
        } else {
          add.next.prev := add;
        }
      }
      nodes := nodes[at := add];
    }

    /** DL_PREPEND_ELEM. */
    method PrependElem(el: Node<T>, add: Node<T>, ghost at: nat)
      requires Valid() && at < |nodes| && nodes[at] == el && add !in nodes
      modifies this, nodes, add
      ensures Valid() && nodes == old(nodes)[..at] + [add] + old(nodes)[at..]
    {
      add.next := el;
      add.prev := el.prev;
      el.prev := add;
      if head == el {
        head := add;
      } else {
        add.prev.next := add;
      }
      nodes := nodes[..at] + [add] + nodes[at..];
    }
  }

  // ------------------------------------------------------------------ sorting

  /** The comparison function applied to two nodes. */
  ghost function By<T>(cmp: (T, T) -> int): (Node<T>, Node<T>) -> int {
    (x: Node<T>, y: Node<T>) => cmp(x.data, y.data)
  }

  /** The nodes relinked so far: list is the first one, tail the last. */
  ghost predicate Output<T>(list: Node?<T>, tail: Node?<T>, out: seq<Node<T>>, doubly: bool)
    reads out
  {
    && NextLinked(out)
    && (if out == [] then list == tail == null else list == out[0] && tail == out[|out| - 1])
    && (doubly ==> PrevLinked(out) && (out != [] ==> out[0].prev == null))
  }

  /** The nodes not yet taken: node is the first one, and the last one's next is stop. */
  ghost predicate Input<T>(node: Node?<T>, rest: seq<Node<T>>, stop: Node?<T>)
    reads rest
  {
    && NextLinked(rest)
    && (if rest == [] then node == null else node == rest[0] && rest[|rest| - 1].next == stop)
    && forall k :: 0 < k < |rest| ==> rest[k] != stop
  }

  /** Stepping to the next node; stop ends a circular list, NULL the others. */
  method Advance<T>(node: Node<T>, stop: Node?<T>, ghost rest: seq<Node<T>>) returns (next: Node?<T>)
    requires rest != [] && Input(node, rest, stop)
    ensures Input(next, rest[1..], stop)
  {
    next := if node.next == stop then null else node.next;
    assert rest[0].next == node.next;
    assert forall k {:trigger rest[1..][k].next} :: 0 <= k < |rest| - 2 ==> rest[k + 1].next == rest[k + 2];
  }

  /** Finding the start of the second run. */
  method SplitRun<T>(p: Node<T>, stop: Node?<T>, insize: nat, ghost rest: seq<Node<T>>)
    returns (q: Node?<T>, psize: nat)
    requires insize > 0 && rest != [] && Input(p, rest, stop)
    ensures psize == Cut(|rest|, insize) && Input(q, rest[psize..], stop)
  {
    q, psize := p, 0;
    var i := 0;
    while i < insize
      invariant i == psize <= insize && psize < |rest|
      invariant Input(q, rest[psize..], stop) && q != null
    {
      psize := psize + 1;
      q := Advance(q, stop, rest[psize - 1..]);
      assert rest[psize - 1..][1..] == rest[psize..];
      if q == null { break; }
      i := i + 1;
    }
  }

  /** The parts of a state of the merge are disjoint: the output, the first run, the nodes from
      the second run on. */
  ghost predicate Apart<E>(out: seq<E>, p: seq<E>, r: seq<E>, dom: set<E>) {
    Distinct(out + p + r) && forall x | x in out + p + r :: x in dom
  }

  /** Neither the chosen node nor the last one of the output is still waiting. */
  ghost predicate Untouched<E>(s: seq<E>, e: E, out: seq<E>) {
    forall k | 0 <= k < |s| :: s[k] != e && (out != [] ==> s[k] != out[|out| - 1])
  }

  /** What stays when x has been taken off one of the two runs. */
  ghost function Left<E>(s: seq<E>, taken: bool): seq<E> {
    if taken && s != [] then s[1..] else s
  }

  lemma TakenApart<E>(out: seq<E>, p: seq<E>, r: seq<E>, dom: set<E>, fromP: bool, fromR: bool)
    requires fromR == !fromP
    requires Apart(out, p, r, dom) && if fromP then p != [] else r != []
    ensures var x, p', r' := if fromP then p[0] else r[0], Left(p, fromP), Left(r, fromR);
      && x in dom && Distinct(out + [x]) && Apart(out + [x], p', r', dom)
      && Untouched(p', x, out) && Untouched(r', x, out)
  {
    hide Distinct, Left;
    var x, p', r' := if fromP then p[0] else r[0], Left(p, fromP), Left(r, fromR);
    var s := (out + [x]) + (p' + r');
    TakenElements(out, p, r, fromP, fromR);
    DistinctPermuted(out + p + r, s);
    SameElements(out + p + r, s);
    DistinctParts(out + [x], p' + r');
    assert (out + [x]) + p' + r' == s;
    assert x in s;
    forall y | y in s
      ensures y in dom
    {
      assert y in out + p + r;
    }
    assert Apart(out + [x], p', r', dom);
    assert forall k | 0 <= k < |p'| :: p'[k] in p' + r';
    assert forall k | 0 <= k < |r'| :: r'[k] in p' + r';
    assert x in out + [x] && (out != [] ==> out[|out| - 1] in out + [x]);
  }

  lemma TakenElements<E>(out: seq<E>, p: seq<E>, r: seq<E>, fromP: bool, fromR: bool)
    requires fromR == !fromP
    requires if fromP then p != [] else r != []
    ensures multiset((out + [if fromP then p[0] else r[0]]) + (Left(p, fromP) + Left(r, fromR)))
      == multiset(out + p + r)
  {
    if fromP {
      assert p == [p[0]] + p[1..];
    } else {
      assert r == [r[0]] + r[1..];
    }
  }

  /** Appending the chosen node to the output. */
  method Link<T>(list: Node?<T>, tail: Node?<T>, e: Node<T>, doubly: bool, ghost out: seq<Node<T>>,
                 ghost p: Node?<T>, ghost first: seq<Node<T>>, ghost q: Node?<T>, ghost others: seq<Node<T>>,
                 ghost stop: Node?<T>)
    returns (list': Node<T>)
    requires Output(list, tail, out, doubly) && Distinct(out + [e])
    requires Run(p, first, stop) && Untouched(first, e, out) && Input(q, others, stop) && Untouched(others, e, out)
    modifies tail, e
    ensures Output(list', e, out + [e], doubly)
    ensures Run(p, first, stop) && Input(q, others, stop)
    ensures e.next == old(e.next) && (!doubly ==> e.prev == old(e.prev))
    ensures tail != null ==> tail.prev == old(tail.prev)
  {
    assert out != [] ==> (out + [e])[|out| - 1] != (out + [e])[|out|];
    if tail != null {
      tail.next := e;
      list' := list;
    } else {
      list' := e;
    }
    if doubly {
      e.prev := tail;
    }
    assert forall k {:trigger (out + [e])[k]} :: 0 <= k < |out| ==> (out + [e])[k] == out[k];
  }

  /** A run that is being consumed: p is its first node. */
  ghost predicate Run<T>(p: Node?<T>, run: seq<Node<T>>, stop: Node?<T>)
    reads run
  {
    && NextLinked(run) && (run != [] ==> p == run[0])
    && forall k :: 0 < k < |run| ==> run[k] != stop
  }

  method StepRun<T>(p: Node<T>, stop: Node?<T>, ghost run: seq<Node<T>>) returns (next: Node?<T>)
    requires run != [] && Run(p, run, stop)
    ensures Run(next, run[1..], stop)
  {
    next := if p.next == stop then null else p.next;
    assert |run| > 1 ==> run[0].next == run[1];
    assert forall k {:trigger run[1..][k].next} :: 0 <= k < |run| - 2 ==> run[k + 1].next == run[k + 2];
  }

  /** Choosing the node that goes to the output next: the first run's on ties. */
  method TakeNode<T>(p: Node?<T>, psize: nat, q: Node?<T>, qsize: nat, stop: Node?<T>,
                     cmp: (T, T) -> int, ghost first: seq<Node<T>>, ghost others: seq<Node<T>>)
    returns (e: Node<T>, p': Node?<T>, psize': nat, q': Node?<T>, qsize': nat,
             ghost fromP: bool, ghost fromR: bool, ghost compared: nat)
    requires psize > 0 || (qsize > 0 && q != null)
    requires psize == |first| && Run(p, first, stop) && Input(q, others, stop)
    ensures fromR == !fromP
    ensures if fromP then first != [] && e == first[0] else others != [] && e == others[0] && qsize > 0
    ensures psize' == |Left(first, fromP)| && Run(p', Left(first, fromP), stop)
    ensures qsize' == (if fromP then qsize else qsize - 1) && Input(q', Left(others, fromR), stop)
    ensures psize' + qsize' < psize + qsize
    ensures Merge(By(cmp), first, First(others, qsize))
      == [e] + Merge(By(cmp), Left(first, fromP), First(Left(others, fromR), qsize'))
    ensures MergeCost(By(cmp), first, First(others, qsize))
      == compared + MergeCost(By(cmp), Left(first, fromP), First(Left(others, fromR), qsize'))
  {
    hide NextLinked, Merge, MergeCost;
    p', psize', q', qsize', compared := p, psize, q, qsize, 0;
    MergeStep(By(cmp), first, First(others, qsize));
    if psize == 0 {
      e, fromP := q, false;
      q' := Advance(q, stop, others);
      qsize' := qsize - 1;
    } else if qsize == 0 || q == null {
      e, fromP := p, true;
      p' := StepRun(p, stop, first);
      psize' := psize - 1;
    } else if cmp(p.data, q.data) <= 0 {
      compared := 1;
      e, fromP := p, true;
      p' := StepRun(p, stop, first);
      psize' := psize - 1;
    } else {
      compared := 1;
      e, fromP := q, false;
      q' := Advance(q, stop, others);
      qsize' := qsize - 1;
    }
    fromR := !fromP;
    if fromR {
      assert First(others, qsize)[1..] == First(others[1..], qsize');
    }
  }

  /** Merging the run of psize nodes at p with the run of at most insize nodes at q. */
  method MergeRuns<T>(p0: Node<T>, psize0: nat, q0: Node?<T>, insize: nat, stop: Node?<T>,
                      list0: Node?<T>, tail0: Node?<T>, doubly: bool, cmp: (T, T) -> int,
                      ghost out0: seq<Node<T>>, ghost rest: seq<Node<T>>, ghost dom: set<Node<T>>)
    returns (list: Node?<T>, tail: Node?<T>, q: Node?<T>, ghost out: seq<Node<T>>, ghost comparisons: nat)
    requires insize > 0 && rest != [] && psize0 == Cut(|rest|, insize)
    requires Input(p0, rest, stop) && Input(q0, rest[psize0..], stop)
    requires Output(list0, tail0, out0, doubly) && Apart(out0, [], rest, dom)
    modifies dom
    ensures out == out0 + Merge(By(cmp), First(rest, insize), Second(rest, insize))
    ensures comparisons == MergeCost(By(cmp), First(rest, insize), Second(rest, insize))
    ensures Output(list, tail, out, doubly) && Input(q, Beyond(rest, insize), stop)
    ensures Apart(out, [], Beyond(rest, insize), dom)
    ensures !doubly ==> forall n :: n in dom ==> n.prev == old(n.prev)
  {
    hide *;
    list, tail, q, out, comparisons := list0, tail0, q0, out0, 0;
    var p: Node?<T>, psize, qsize := p0, psize0, insize;
    ghost var first, others, beyond := First(rest, insize), rest[psize0..], Beyond(rest, insize);
    ghost var m, c := Merge(By(cmp), first, First(others, qsize)), MergeCost(By(cmp), first, First(others, qsize));
    StartRuns(p0, out, rest, insize, stop, dom);
    while psize > 0 || (qsize > 0 && q != null)
      invariant psize == |first| && Run(p, first, stop) && Input(q, others, stop)
      invariant others[Cut(|others|, qsize)..] == beyond
      invariant Output(list, tail, out, doubly) && Apart(out, first, others, dom)
      invariant out + Merge(By(cmp), first, First(others, qsize)) == out0 + m
      invariant comparisons + MergeCost(By(cmp), first, First(others, qsize)) == c
      invariant !doubly ==> forall n :: n in dom ==> n.prev == old(n.prev)
      decreases psize + qsize
    {
      var e: Node<T>;
      ghost var fromP: bool, fromR: bool, compared: nat;
      ghost var first', others', qsize' := first, others, qsize;
      e, p, psize, q, qsize, fromP, fromR, compared := TakeNode(p, psize, q, qsize, stop, cmp, first, others);
      comparisons := comparisons + compared;
      first, others := Left(first', fromP), Left(others', fromR);
      TakenApart(out, first', others', dom, fromP, fromR);
      ghost var merged := Merge(By(cmp), first, First(others, qsize));
      assert out + ([e] + merged) == out + [e] + merged;
      InDom(out, first', others', dom);
      OutputTail(list, tail, out, doubly);
      list := Link(list, tail, e, doubly, out, p, first, q, others, stop);
      tail := e;
      out := out + [e];
      LeftBeyond(others', qsize', fromR);
    }
    InputFirst(q, others, stop);
    MergeNothing(By(cmp), out, others, qsize, dom);
  }

  lemma OutputTail<T>(list: Node?<T>, tail: Node?<T>, out: seq<Node<T>>, doubly: bool)
    requires Output(list, tail, out, doubly)
    ensures tail != null ==> tail in out
  {
  }

  lemma InDom<E>(out: seq<E>, p: seq<E>, r: seq<E>, dom: set<E>)
    requires Apart(out, p, r, dom)
    ensures forall x | x in out + p + r :: x in dom
  {
  }

  lemma LeftBeyond<E>(r: seq<E>, qsize: nat, fromR: bool)
    requires fromR ==> r != [] && qsize > 0
    ensures var r', n := Left(r, fromR), if fromR then qsize - 1 else qsize;
      r'[Cut(|r'|, n)..] == r[Cut(|r|, qsize)..]
  {
  }

  lemma MergeNothing<E>(cmp: (E, E) -> int, out: seq<E>, r: seq<E>, qsize: nat, dom: set<E>)
    requires qsize == 0 || r == []
    requires Apart(out, [], r, dom)
    ensures out + Merge(cmp, [], First(r, qsize)) == out && MergeCost(cmp, [], First(r, qsize)) == 0
    ensures r[Cut(|r|, qsize)..] == r
  {
  }

  lemma StartRuns<T>(p: Node<T>, out: seq<Node<T>>, rest: seq<Node<T>>, insize: nat, stop: Node?<T>,
                     dom: set<Node<T>>)
    requires insize > 0 && rest != [] && Input(p, rest, stop) && Apart(out, [], rest, dom)
    ensures Run(p, First(rest, insize), stop) && |First(rest, insize)| == Cut(|rest|, insize)
    ensures var r := rest[Cut(|rest|, insize)..];
      && Apart(out, First(rest, insize), r, dom)
      && First(r, insize) == Second(rest, insize) && r[Cut(|r|, insize)..] == Beyond(rest, insize)
  {
    var r := rest[Cut(|rest|, insize)..];
    assert out + [] + rest == out + First(rest, insize) + r;
  }

  /** One pass of a sort macro: neighbouring runs of insize nodes are merged and relinked. */
  method MergePass<T>(first: Node<T>, stop: Node?<T>, insize: nat, doubly: bool, cmp: (T, T) -> int,
                      ghost s: seq<Node<T>>, ghost dom: set<Node<T>>)
    returns (list: Node<T>, tail: Node<T>, nmerges: nat, ghost out: seq<Node<T>>, ghost comparisons: nat)
    requires insize > 0 && s != [] && Input(first, s, stop) && Apart([], [], s, dom)
    modifies dom
    ensures out == Pass(By(cmp), s, insize) && comparisons == PassCost(By(cmp), s, insize)
    ensures nmerges == Merges(|s|, insize)
    ensures Output(list, tail, out, doubly) && Apart([], [], out, dom)
    ensures !doubly ==> forall n :: n in dom ==> n.prev == old(n.prev)
  {
    hide Merge, MergeCost, Apart, Input, Output, First, Second, Beyond, Pass, PassCost, Merges;
    var p: Node?<T>, end: Node?<T>, head: Node?<T> := first, null, null;
    nmerges, out, comparisons := 0, [], 0;
    ghost var rest := s;
    NoOutput<T>(doubly);
    InputFirst(p, rest, stop);
    while p != null
      invariant Input(p, rest, stop) && (p == null <==> rest == [])
      invariant Output(head, end, out, doubly) && Apart(out, [], rest, dom)
      invariant out + Pass(By(cmp), rest, insize) == Pass(By(cmp), s, insize)
      invariant comparisons + PassCost(By(cmp), rest, insize) == PassCost(By(cmp), s, insize)
      invariant nmerges + Merges(|rest|, insize) == Merges(|s|, insize)
      invariant !doubly ==> forall n :: n in dom ==> n.prev == old(n.prev)
      decreases |rest|
    {
      nmerges := nmerges + 1;
      InputFirst(p, rest, stop);
      var q, psize := SplitRun(p, stop, insize, rest);
      ghost var made: nat;
      ghost var before := out;
      head, end, p, out, made :=
        MergeRuns(p, psize, q, insize, stop, head, end, doubly, cmp, out, rest, dom);
      comparisons := comparisons + made;
      PassStep(By(cmp), rest, insize);
      ghost var m := Merge(By(cmp), First(rest, insize), Second(rest, insize));
      ghost var t := Pass(By(cmp), Beyond(rest, insize), insize);
      assert out + t == before + (m + t);
      rest := Beyond(rest, insize);
      InputFirst(p, rest, stop);
    }
    PassStep(By(cmp), rest, insize);
    NonEmptyOutput(head, end, out, doubly);
    ApartOutput(out, dom);
    list, tail := head, end;
  }

  lemma InputFirst<T>(p: Node?<T>, rest: seq<Node<T>>, stop: Node?<T>)
    requires Input(p, rest, stop)
    ensures if rest == [] then p == null else p == rest[0]
  {
  }

  lemma NoOutput<T>(doubly: bool)
    ensures Output<T>(null, null, [], doubly)
  {
  }

  lemma NonEmptyOutput<T>(list: Node?<T>, tail: Node?<T>, out: seq<Node<T>>, doubly: bool)
    requires out != [] && Output(list, tail, out, doubly)
    ensures list == out[0] && tail == out[|out| - 1] && list in out && tail in out
  {
  }

  lemma ApartDistinct<E>(s: seq<E>, dom: set<E>)
    ensures Apart([], [], s, dom) <==> Distinct(s) && forall x | x in s :: x in dom
  {
    assert [] + [] + s == s;
  }

  lemma ApartOutput<E>(out: seq<E>, dom: set<E>)
    requires Apart(out, [], [], dom)
    ensures Apart([], [], out, dom)
  {
    assert out + [] + [] == out;
    assert [] + [] + out == out;
  }

  /** What a sort macro leaves: the nodes in the order of the functional sort, and the number of
      its passes and comparisons. */
  ghost predicate SortResult<T>(cmp: (T, T) -> int, s: seq<Node<T>>, t: seq<Node<T>>, passes: nat, comparisons: nat) {
    && t == Sort(By(cmp), s, 1)
    && passes == (if s == [] then 0 else Passes(|s|, 1))
    && comparisons == SortCost(By(cmp), s, 1)
  }

  /** Where the loop of a sort macro stands: passes of width below insize are done. */
  ghost predicate SortState<T>(cmp: (T, T) -> int, s: seq<Node<T>>, t: seq<Node<T>>, insize: nat, done: bool,
                         passes: nat, comparisons: nat)
  {
    && insize > 0 && |t| == |s|
    && (if done then t == Sort(By(cmp), s, 1) && passes == Passes(|s|, 1) && comparisons == SortCost(By(cmp), s, 1)
        else && Sort(By(cmp), t, insize) == Sort(By(cmp), s, 1)
             && passes + Passes(|s|, insize) == Passes(|s|, 1)
             && comparisons + SortCost(By(cmp), t, insize) == SortCost(By(cmp), s, 1))
  }

  lemma SortStep<T>(cmp: (T, T) -> int, s: seq<Node<T>>, t: seq<Node<T>>, insize: nat, passes: nat, comparisons: nat)
    requires SortState(cmp, s, t, insize, false, passes, comparisons)
    ensures SortState(cmp, s, Pass(By(cmp), t, insize), 2 * insize, Merges(|t|, insize) <= 1,
                      passes + 1, comparisons + PassCost(By(cmp), t, insize))
    ensures Merges(|t|, insize) > 1 ==> insize < |t|
  {
    MergesAtMostOne(|t|, insize);
  }

  /** LL_SORT2. */
  method LLSort<T>(head: Node?<T>, cmp: (T, T) -> int, ghost s: seq<Node<T>>)
    returns (list: Node?<T>, ghost t: seq<Node<T>>, ghost passes: nat, ghost comparisons: nat)
    requires IsLL(head, s)
    modifies s
    ensures IsLL(list, t) && SortResult(cmp, s, t, passes, comparisons)
    ensures forall n :: n in s ==> n.prev == old(n.prev)
  {
    hide Sort, SortCost, Pass, PassCost, Passes, Merges;
    list, t, passes, comparisons := head, s, 0, 0;
    ghost var dom := set n | n in s;
    ApartDistinct(s, dom);
    if list == null {
      EmptySort(By(cmp));
    } else {
      var insize, looping := 1, true;
      while looping
        invariant insize > 0 && IsLL(list, t) && t != [] && Apart([], [], t, dom)
        invariant SortState(cmp, s, t, insize, !looping, passes, comparisons)
        invariant forall n :: n in s ==> n.prev == old(n.prev)
        decreases looping, |s| - insize
      {
        var tail: Node<T>, nmerges: nat;
        ghost var made: nat;
        SortStep(cmp, s, t, insize, passes, comparisons);
        list, tail, nmerges, t, made := MergePass(list, null, insize, false, cmp, t, dom);
        passes, comparisons := passes + 1, comparisons + made;
        ApartDistinct(t, dom);
        tail.next := null;
        if nmerges <= 1 {
          looping := false;
        }
        insize := insize * 2;
      }
    }
  }

  lemma StartState<T>(cmp: (T, T) -> int, s: seq<Node<T>>)
    ensures SortState(cmp, s, s, 1, false, 0, 0)
  {
  }

  lemma SortLength<T>(cmp: (T, T) -> int, s: seq<Node<T>>, t: seq<Node<T>>, insize: nat, done: bool,
                      passes: nat, comparisons: nat)
    requires SortState(cmp, s, t, insize, done, passes, comparisons)
    ensures |t| == |s| && insize > 0
  {
  }

  lemma FinalState<T>(cmp: (T, T) -> int, s: seq<Node<T>>, t: seq<Node<T>>, insize: nat, passes: nat, comparisons: nat)
    requires SortState(cmp, s, t, insize, true, passes, comparisons) && t != []
    ensures SortResult(cmp, s, t, passes, comparisons)
  {
  }

  lemma NextInput<T>(list: Node<T>, last: Node<T>, t: seq<Node<T>>, dom: set<Node<T>>)
    requires t != [] && Output(list, last, t, true) && last.next == null
    ensures Input(list, t, null)
  {
  }

  /** Ending the list a pass has made. */
  method EndList<T>(list: Node<T>, last: Node<T>, ghost t: seq<Node<T>>, ghost dom: set<Node<T>>)
    requires t != [] && Output(list, last, t, true) && Apart([], [], t, dom)
    modifies last`next
    ensures Output(list, last, t, true) && last.next == null
  {
    ApartDistinct(t, dom);
    last.next := null;
  }

  lemma EmptySort<E>(cmp: (E, E) -> int)
    ensures Sort(cmp, [], 1) == [] && SortCost(cmp, [], 1) == 0
  {
  }

  /** The end of a pass of DL_SORT2. */
  method CloseDL<T>(list: Node<T>, tail: Node<T>, ghost t: seq<Node<T>>)
    requires t != [] && Output(list, tail, t, true) && Distinct(t)
    modifies list`prev, tail`next
    ensures IsDL(list, t)
  {
    list.prev := tail;
    tail.next := null;
  }

  lemma DLInput<T>(head: Node?<T>, s: seq<Node<T>>)
    requires IsDL(head, s) && s != []
    ensures head != null && Input(head, s, null)
  {
  }

  lemma DLHead<T>(head: Node?<T>, s: seq<Node<T>>, dom: set<Node<T>>)
    requires IsDL(head, s) && dom == set n | n in s
    ensures (head == null <==> s == []) && Apart([], [], s, dom)
  {
    ApartDistinct(s, dom);
  }

  /** DL_SORT2. */
  method DLSort<T>(head: Node?<T>, cmp: (T, T) -> int, ghost s: seq<Node<T>>)
    returns (list: Node?<T>, ghost t: seq<Node<T>>, ghost passes: nat, ghost comparisons: nat)
    requires IsDL(head, s)
    modifies s
    ensures IsDL(list, t) && SortResult(cmp, s, t, passes, comparisons)
  {
    hide Sort, SortCost, Pass, PassCost, Passes, Merges, IsDL, Output, Input, Apart, Distinct;
    list, t, passes, comparisons := head, s, 0, 0;
    ghost var dom := set n | n in s;
    DLHead(list, s, dom);
    if list == null {
      EmptySort(By(cmp));
    } else {
      var insize, looping := 1, true;
      while looping
        invariant insize > 0 && IsDL(list, t) && t != [] && Apart([], [], t, dom)
        invariant SortState(cmp, s, t, insize, !looping, passes, comparisons)
        decreases looping, |s| - insize
      {
        var tail: Node<T>, nmerges: nat;
        ghost var made: nat;
        SortStep(cmp, s, t, insize, passes, comparisons);
        DLInput(list, t);
        list, tail, nmerges, t, made := MergePass(list, null, insize, true, cmp, t, dom);
        passes, comparisons := passes + 1, comparisons + made;
        ApartDistinct(t, dom);
        NonEmptyOutput(list, tail, t, true);
        InDom([], [], t, dom);
        CloseDL(list, tail, t);
        if nmerges <= 1 {
          looping := false;
        }
        insize := insize * 2;
      }
    }
  }

  /** The end of a pass of CDL_SORT2. */
  method CloseCDL<T>(list: Node<T>, tail: Node<T>, ghost t: seq<Node<T>>)
    requires t != [] && Output(list, tail, t, true) && Distinct(t)
    modifies list`prev, tail`next
    ensures IsCDL(list, t)
  {
    list.prev := tail;
    tail.next := list;
  }

  lemma CDLInput<T>(head: Node?<T>, s: seq<Node<T>>)
    requires IsCDL(head, s) && s != []
    ensures head != null && Input(head, s, head)
  {
  }

  lemma CDLHead<T>(head: Node?<T>, s: seq<Node<T>>, dom: set<Node<T>>)
    requires IsCDL(head, s) && dom == set n | n in s
    ensures (head == null <==> s == []) && Apart([], [], s, dom)
  {
    ApartDistinct(s, dom);
  }

  /** CDL_SORT2. The old head ends the list instead of NULL. */
  method CDLSort<T>(head: Node?<T>, cmp: (T, T) -> int, ghost s: seq<Node<T>>)
    returns (list: Node?<T>, ghost t: seq<Node<T>>, ghost passes: nat, ghost comparisons: nat)
    requires IsCDL(head, s)
    modifies s
    ensures IsCDL(list, t) && SortResult(cmp, s, t, passes, comparisons)
  {
    hide Sort, SortCost, Pass, PassCost, Passes, Merges, IsCDL, Output, Input, Apart, Distinct;
    list, t, passes, comparisons := head, s, 0, 0;
    ghost var dom := set n | n in s;
    CDLHead(list, s, dom);
    if list == null {
      EmptySort(By(cmp));
    } else {
      var insize, looping := 1, true;
      while looping
        invariant insize > 0 && IsCDL(list, t) && t != [] && Apart([], [], t, dom)
        invariant SortState(cmp, s, t, insize, !looping, passes, comparisons)
        decreases looping, |s| - insize
      {
        var tail: Node<T>, nmerges: nat;
        ghost var made: nat;
        SortStep(cmp, s, t, insize, passes, comparisons);
        CDLInput(list, t);
        var oldhead := list;
        list, tail, nmerges, t, made := MergePass(list, oldhead, insize, true, cmp, t, dom);
        passes, comparisons := passes + 1, comparisons + made;
        ApartDistinct(t, dom);
        NonEmptyOutput(list, tail, t, true);
        InDom([], [], t, dom);
        CloseCDL(list, tail, t);
        if nmerges <= 1 {
          looping := false;
        }
        insize := insize * 2;
      }
    }
  }

  /** What every sort macro promises of the list it leaves: sorted, the same nodes, ties in their
      old order; at most max(1, ceil(log2 n)) passes of at most n comparisons. */
  lemma SortResultCorrect<T>(cmp: (T, T) -> int, s: seq<Node<T>>, t: seq<Node<T>>, passes: nat, comparisons: nat,
                             c: nat)
    requires SortResult(cmp, s, t, passes, comparisons) && TotalPreorder(By(cmp), s)
    requires s != [] && IsCeilLog2(|s|, c)
    ensures StableSorting(By(cmp), s, t)
    ensures passes == (if c == 0 then 1 else c) && comparisons <= |s| * passes
  {
    SortCorrect(By(cmp), s);
    PassCount(|s|, c);
    ComparisonBound(By(cmp), s, c);
  }
}
