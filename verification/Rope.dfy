/** Ropes (libraries/eosiolib/core/eosio/rope.hpp): strings appended in constant time and
    flattened by a walk that keeps its way back in the nodes themselves.  Nodes may be
    shared, so a rope is a graph without cycles, not a tree. */
module Rope {

  /** A piece of text, or the concatenation of what is on the right and then what is on
      the left.  `rank` is above that of the node's children. */
  class Node {
    const isString: bool
    const text: seq<char>
    const left: Node?
    const right: Node?
    ghost const rank: nat
    var temp: Node?
    var tempLeft: bool

    constructor Str(s: seq<char>)
      ensures isString && text == s && left == right == null && rank == 0
    {
      isString, text, left, right, rank := true, s, null, null, 0;
      temp, tempLeft := null, false;
    }

    constructor Concat(l: Node?, r: Node?)
      ensures !isString && left == l && right == r && Rank(l) <= rank && Rank(r) <= rank
    {
      isString, text, left, right := false, [], l, r;
      rank := Rank(l) + Rank(r);
      temp, tempLeft := null, false;
    }
  }

  ghost function Rank(n: Node?): nat { if n == null then 0 else n.rank + 1 }

  /** No cycles, and what is on the right is never a bare string. */
  ghost predicate Ok(n: Node?)
    decreases Rank(n)
  {
    n != null && !n.isString ==>
      && Rank(n.left) < Rank(n) && Rank(n.right) < Rank(n) && Ok(n.left) && Ok(n.right)
      && (n.right != null ==> !n.right.isString)
  }

  lemma Children(n: Node)
    requires Ok(n) && !n.isString
    ensures Rank(n.left) < Rank(n) && Rank(n.right) < Rank(n) && Ok(n.left) && Ok(n.right)
    ensures n.right != null ==> !n.right.isString
  {
  }

  /** The text of a node: what the rope means. */
  ghost function Flat(n: Node?): seq<char>
    requires Ok(n)
    decreases Rank(n)
  {
    if n == null then [] else if n.isString then n.text else Flat(n.right) + Flat(n.left)
  }

  /** The nodes the walk may come to. */
  ghost predicate Closed(nodes: set<Node>) {
    forall n :: n in nodes && !n.isString ==>
      (n.left != null ==> n.left in nodes) && (n.right != null ==> n.right in nodes)
  }

  // ----- the walk

  /** A node entered, and whether the walk is below its left child. */
  datatype Frame = Frame(node: Node, onLeft: bool)

  ghost predicate OkFrame(f: Frame, nodes: set<Node>) {
    Ok(f.node) && !f.node.isString && f.node in nodes
  }

  /** The nodes entered, outermost first. */
  ghost predicate OkStack(stack: seq<Frame>, nodes: set<Node>) {
    && (forall j :: 0 <= j < |stack| ==> OkFrame(stack[j], nodes))
    && (forall j, k :: 0 <= j < k < |stack| ==> stack[k].node.rank < stack[j].node.rank)
  }

  /** The node entered before the j-th. */
  ghost function Before(stack: seq<Frame>, j: nat): Node?
    requires j <= |stack|
  {
    if j == 0 then null else stack[j - 1].node
  }

  ghost function Top(stack: seq<Frame>): Node? { Before(stack, |stack|) }

  /** The way back is what the nodes' own fields say. */
  ghost predicate Linked(stack: seq<Frame>)
    reads set f | f in stack :: f.node
  {
    forall j {:trigger Before(stack, j)} :: 0 <= j < |stack| ==>
      stack[j].node.temp == Before(stack, j) && stack[j].node.tempLeft == stack[j].onLeft
  }

  /** The text still to come from the nodes entered. */
  ghost function Pending(stack: seq<Frame>): seq<char>
    requires forall j :: 0 <= j < |stack| ==> Ok(stack[j].node) && !stack[j].node.isString
  {
    if stack == [] then [] else
      var f := stack[|stack| - 1];
      Children(f.node);
      Pending(stack[..|stack| - 1]) + if f.onLeft then Flat(f.node.right) else []
  }

  // ----- termination: the steps left

  ghost function Work(n: Node?): nat
    requires Ok(n)
    decreases Rank(n)
  {
    if n == null then 0 else if n.isString then 1 else 2 + Work(n.left) + 1 + Work(n.right)
  }

  ghost function Left(stack: seq<Frame>): nat
    requires forall j :: 0 <= j < |stack| ==> Ok(stack[j].node) && !stack[j].node.isString
  {
    if stack == [] then 0 else
      var f := stack[|stack| - 1];
      Children(f.node);
      Left(stack[..|stack| - 1]) + 1 + if f.onLeft then 1 + Work(f.node.right) else 0
  }

  /** State of the walk: `r` is the node to enter, or, going up, to come back to. */
  ghost predicate Walking(stack: seq<Frame>, nodes: set<Node>, r: Node?, goingDown: bool)
    reads set f | f in stack :: f.node
    reads if r == null then {} else {r}
  {
    && Closed(nodes) && OkStack(stack, nodes) && Linked(stack)
    && (goingDown ==>
      r != null && r in nodes && Ok(r) && r.temp == Top(stack) && (stack == [] || r.rank < Top(stack).rank))
    && (!goingDown ==> r == Top(stack))
  }

  /** The text still to come. */
  ghost function Rest(stack: seq<Frame>, r: Node?, goingDown: bool): seq<char>
    requires Ok(r) && forall j :: 0 <= j < |stack| ==> Ok(stack[j].node) && !stack[j].node.isString
  {
    Pending(stack) + if goingDown then Flat(r) else []
  }

  ghost function Steps(stack: seq<Frame>, r: Node?, goingDown: bool): nat
    requires Ok(r) && forall j :: 0 <= j < |stack| ==> Ok(stack[j].node) && !stack[j].node.isString
  {
    Left(stack) + if goingDown then Work(r) else 0
  }

  lemma PushOk(stack: seq<Frame>, f: Frame, nodes: set<Node>)
    requires OkStack(stack, nodes) && OkFrame(f, nodes) && (stack == [] || f.node.rank < Top(stack).rank)
    ensures OkStack(stack + [f], nodes)
    ensures forall j :: 0 <= j < |stack| ==> f.node.rank < stack[j].node.rank
  {
    forall j | 0 <= j < |stack|
      ensures f.node.rank < stack[j].node.rank
    {
      if j < |stack| - 1 { assert stack[|stack| - 1].node.rank < stack[j].node.rank; }
    }
  }

  /** From node n to a child of it, which gets its way back. */
  method Descend(n: Node, child: Node, onLeft: bool, ghost stack: seq<Frame>, ghost nodes: set<Node>)
      returns (ghost stack': seq<Frame>)
    requires Closed(nodes) && OkStack(stack, nodes) && Linked(stack) && OkFrame(Frame(n, onLeft), nodes)
    requires n.temp == Top(stack) && (stack == [] || n.rank < Top(stack).rank)
    requires child == (if onLeft then n.left else n.right)
    modifies n, child
    ensures Walking(stack', nodes, child, true) && stack' == stack + [Frame(n, onLeft)]
  {
    Children(n);
    stack' := stack + [Frame(n, onLeft)];
    PushOk(stack, Frame(n, onLeft), nodes);
    n.tempLeft := onLeft;
    child.temp := n;
    forall j {:trigger Before(stack', j)} | 0 <= j < |stack'|
      ensures stack'[j].node.temp == Before(stack', j) && stack'[j].node.tempLeft == stack'[j].onLeft
    {
      assert Before(stack', j) == Before(stack, j);
    }
    assert Linked(stack');
    assert Top(stack') == n;
  }

  ghost predicate OkNodes(stack: seq<Frame>) {
    forall j :: 0 <= j < |stack| ==> Ok(stack[j].node) && !stack[j].node.isString
  }

  lemma Pushed(stack: seq<Frame>, f: Frame)
    requires OkNodes(stack) && Ok(f.node) && !f.node.isString
    ensures OkNodes(stack + [f]) && Ok(f.node.right)
    ensures Pending(stack + [f]) == Pending(stack) + if f.onLeft then Flat(f.node.right) else []
    ensures Left(stack + [f]) == Left(stack) + 1 + if f.onLeft then 1 + Work(f.node.right) else 0
  {
    Children(f.node);
    assert (stack + [f])[..|stack|] == stack;
  }

  /** Entering a concatenation: the text to come stays the same. */
  lemma Entered(stack: seq<Frame>, n: Node, child: Node, onLeft: bool)
    requires OkNodes(stack) && Ok(n) && !n.isString
    requires if n.left != null then onLeft && child == n.left else !onLeft && child == n.right
    ensures var stack' := stack + [Frame(n, onLeft)];
      && OkNodes(stack') && Ok(child)
      && Rest(stack', child, true) == Rest(stack, n, true) && Steps(stack', child, true) < Steps(stack, n, true)
  {
    Children(n);
    Pushed(stack, Frame(n, onLeft));
    assert Flat(n) == Flat(n.right) + Flat(n.left);
  }

  /** Coming back from the left: the right is next. */
  lemma Turned(stack: seq<Frame>, n: Node)
    requires OkNodes(stack) && Ok(n) && !n.isString && n.right != null
    ensures Ok(n.right) && OkNodes(stack + [Frame(n, true)]) && OkNodes(stack + [Frame(n, false)])
    ensures Rest(stack + [Frame(n, false)], n.right, true) == Rest(stack + [Frame(n, true)], n, false)
    ensures Steps(stack + [Frame(n, false)], n.right, true) < Steps(stack + [Frame(n, true)], n, false)
  {
    Pushed(stack, Frame(n, true));
    Pushed(stack, Frame(n, false));
  }

  /** Nothing is left in a node: back to the one before. */
  lemma Popped(stack: seq<Frame>, n: Node, onLeft: bool)
    requires OkNodes(stack) && Ok(n) && !n.isString && (onLeft ==> n.right == null) && Ok(Top(stack))
    ensures OkNodes(stack + [Frame(n, onLeft)])
    ensures Rest(stack, Top(stack), false) == Rest(stack + [Frame(n, onLeft)], n, false)
    ensures Steps(stack, Top(stack), false) < Steps(stack + [Frame(n, onLeft)], n, false)
  {
    Pushed(stack, Frame(n, onLeft));
  }

  /** Going up one node. */
  lemma PopOk(stack: seq<Frame>, nodes: set<Node>)
    requires OkStack(stack, nodes) && Linked(stack) && stack != []
    ensures var stack' := stack[..|stack| - 1];
      && OkStack(stack', nodes) && Linked(stack') && OkNodes(stack') && Ok(Top(stack'))
      && stack == stack' + [stack[|stack| - 1]]
      && Top(stack).temp == Top(stack') && Top(stack).tempLeft == stack[|stack| - 1].onLeft
      && (stack' == [] || Top(stack).rank < Top(stack').rank)
  {
    var stack' := stack[..|stack| - 1];
    forall j {:trigger Before(stack', j)} | 0 <= j < |stack'|
      ensures stack'[j].node.temp == Before(stack', j) && stack'[j].node.tempLeft == stack'[j].onLeft
    {
      assert Before(stack', j) == Before(stack, j);
    }
    assert Before(stack, |stack| - 1) == Top(stack');
  }

  /** What the buffer holds: the text from `off` on, and what was there elsewhere. */
  ghost predicate Filled(buffer: array<char>, before: seq<char>, off: nat, off0: nat, done: seq<char>)
    reads buffer
  {
    && off <= off0 <= buffer.Length == |before|
    && buffer[..] == before[..off] + done + before[off0..] && |done| == off0 - off
  }

  method CopyText(buffer: array<char>, at: nat, s: seq<char>)
    requires at + |s| <= buffer.Length
    modifies buffer
    ensures buffer[..] == old(buffer[..at]) + s + old(buffer[at + |s|..])
  {
    for i := 0 to |s|
      invariant buffer[..] == old(buffer[..at]) + s[..i] + old(buffer[at + i..])
    {
      buffer[at + i] := s[i];
    }
  }

  method PlaceText(buffer: array<char>, off: nat, s: seq<char>, ghost before: seq<char>, ghost off0: nat,
      ghost done: seq<char>) returns (off': nat)
    requires Filled(buffer, before, off, off0, done) && |s| <= off
    modifies buffer
    ensures off' == off - |s| && Filled(buffer, before, off', off0, s + done)
  {
    off' := off - |s|;
    assert before[..off] == before[..off'] + before[off'..off];
    CopyText(buffer, off', s);
  }

  /** The text is what is still to come and what is done. */
  ghost predicate Splits(text: seq<char>, rest: seq<char>, done: seq<char>) { text == rest + done }

  lemma Placed(text: seq<char>, pending: seq<char>, s: seq<char>, done: seq<char>)
    requires Splits(text, pending + s, done)
    ensures Splits(text, pending + [], s + done) && |pending| + |s| + |done| == |text|
  {
    assert (pending + s) + done == pending + (s + done);
  }

  /** A string is copied to its place. */
  method Leaf(n: Node, buffer: array<char>, off: nat, ghost text: seq<char>, ghost stack: seq<Frame>,
      ghost nodes: set<Node>,
              ghost before: seq<char>, ghost off0: nat, ghost done: seq<char>)
                returns (off': nat, r: Node?, ghost done': seq<char>)
    requires Walking(stack, nodes, n, true) && OkNodes(stack) && n.isString
    requires Filled(buffer, before, off, off0, done) && Splits(text, Rest(stack, n, true), done) && |text| <= off0
    modifies buffer
    ensures r == Top(stack) && Ok(r) && Filled(buffer, before, off', off0, done') &&
      Splits(text, Rest(stack, r, false), done')
  {
    Placed(text, Pending(stack), n.text, done);
    off' := PlaceText(buffer, off, n.text, before, off0, done);
    done' := n.text + done;
    r := n.temp;
  }

  /** Into a concatenation, or back out of an empty one. */
  method GoDown(n: Node, ghost stack: seq<Frame>, ghost nodes: set<Node>)
      returns (r: Node?, goingDown: bool, ghost stack': seq<Frame>)
    requires Walking(stack, nodes, n, true) && OkNodes(stack) && !n.isString
    modifies nodes
    ensures Walking(stack', nodes, r, goingDown) && Ok(r) && OkNodes(stack')
    ensures Rest(stack', r, goingDown) == Rest(stack, n, true) && Steps(stack', r, goingDown) < Steps(stack, n, true)
  {
    Children(n);
    if n.left != null {
      Entered(stack, n, n.left, true);
      stack' := Descend(n, n.left, true, stack, nodes);
      r, goingDown := n.left, true;
    } else if n.right != null {
      Entered(stack, n, n.right, false);
      stack' := Descend(n, n.right, false, stack, nodes);
      r, goingDown := n.right, true;
    } else {
      stack' := stack;
      r, goingDown := n.temp, false;
      assert Flat(n) == [];
    }
  }

  /** Back at a concatenation: its right side is next, or nothing is left of it. */
  method GoUp(n: Node, ghost stack: seq<Frame>, ghost nodes: set<Node>)
      returns (r: Node?, goingDown: bool, ghost stack': seq<Frame>)
    requires Walking(stack, nodes, n, false) && OkNodes(stack) && Ok(n)
    modifies nodes
    ensures Walking(stack', nodes, r, goingDown) && Ok(r) && OkNodes(stack')
    ensures Rest(stack', r, goingDown) == Rest(stack, n, false) && Steps(stack', r, goingDown) < Steps(stack, n, false)
  {
    PopOk(stack, nodes);
    ghost var below := stack[..|stack| - 1];
    if n.tempLeft && n.right != null {
      Turned(below, n);
      stack' := Descend(n, n.right, false, below, nodes);
      r, goingDown := n.right, true;
    } else {
      Popped(below, n, stack[|stack| - 1].onLeft);
      stack' := below;
      r, goingDown := n.temp, false;
    }
  }

  /** Fill the buffer from its end with the text of a node. */
  method Flatten(buffer: array<char>, root: Node?, off0: nat, ghost nodes: set<Node>) returns (off: nat)
    requires Ok(root) && Closed(nodes) && (root != null ==> root in nodes)
    requires |Flat(root)| <= off0 <= buffer.Length
    modifies nodes, buffer
    ensures Filled(buffer, old(buffer[..]), off, off0, Flat(root))
  {
    off := off0;
    ghost var before, text, done: seq<char>, stack: seq<Frame> := buffer[..], Flat(root), [], [];
    var r, goingDown := root, true;
    if r == null {
      return;
    }
    r.temp := null;
    while r != null
      invariant Walking(stack, nodes, r, goingDown) && Ok(r) && OkNodes(stack)
      invariant Filled(buffer, before, off, off0, done) && Splits(text, Rest(stack, r, goingDown), done)
      decreases Steps(stack, r, goingDown)
    {
      if goingDown {
        if !r.isString {
          r, goingDown, stack := GoDown(r, stack, nodes);
        } else {
          off, r, done := Leaf(r, buffer, off, text, stack, nodes, before, off0, done);
          goingDown := false;
        }
      } else {
        r, goingDown, stack := GoUp(r, stack, nodes);
      }
    }
    assert stack == [] && Rest(stack, r, goingDown) == [];
  }

  // ----- one character

  /** Walk the nodes from the last character backwards until position `index` is reached;
      `soFar` is the position the text already passed starts at. */
  method CharAt(n: Node?, index: nat, soFar: nat, stop: bool, ret: char) returns (ret': char, soFar': nat, stop': bool)
    requires Ok(n) && (stop ==> n == null || !n.isString)
    requires !stop ==> |Flat(n)| <= soFar && index < soFar
    ensures stop ==> stop' && ret' == ret
    ensures !stop ==>
      var lo := soFar - |Flat(n)|;
      if index >= lo then stop' && ret' == Flat(n)[index - lo] else !stop' && soFar' == lo && ret' == ret
    decreases Rank(n)
  {
    ret', soFar', stop' := ret, soFar, stop;
    if n != null {
      if !n.isString {
        Children(n);
        if !stop' {
          if n.left != null {
            ret', soFar', stop' := CharAt(n.left, index, soFar', stop', ret');
          }
          if n.right != null {
            ret', soFar', stop' := CharAt(n.right, index, soFar', stop', ret');
          }
        }
      } else {
        soFar' := soFar' - |n.text|;
        if index >= soFar' {
          ret', stop' := n.text[index - soFar'], true;
        }
      }
    }
  }

  // ----- ropes

  /** The length of a C string with its terminator. */
  method StrLen(s: seq<char>) returns (i: nat)
    requires '\0' in s
    ensures 0 < i <= |s| && s[i - 1] == '\0' && '\0' !in s[..i - 1]
  {
    i := 0;
    while s[i] != '\0'
      invariant i < |s| && '\0' !in s[..i] && '\0' in s[i..]
      decreases |s| - i
    {
      i := i + 1;
    }
    i := i + 1;
  }

  class Rope {
    var root: Node
    var size: nat
    ghost var nodes: set<Node>

    ghost predicate Valid()
      reads this
    {
      root in nodes && Closed(nodes) && Ok(root) && !root.isString && size == |Flat(root)|
    }

    ghost function Text(): seq<char>
      requires Valid()
      reads this
    {
      Flat(root)
    }

    constructor (s: seq<char>)
      ensures Valid() && Text() == s && fresh(nodes)
    {
      var str := new Node.Str(s);
      var top := new Node.Concat(str, null);
      assert Flat(str) == s && Flat(null) == [];
      assert Flat(top) == Flat(null) + Flat(str);
      root, size, nodes := top, |s|, {str, top};
    }

    /** Copying a rope shares its nodes. */
    constructor Copy(r: Rope)
      requires r.Valid()
      ensures Valid() && Text() == r.Text() && nodes == r.nodes
    {
      root, size, nodes := r.root, r.size, r.nodes;
    }

    method AppendString(s: seq<char>)
      requires Valid()
      modifies this
      ensures Valid() && Text() == old(Text()) + s && old(nodes) <= nodes && fresh(nodes - old(nodes))
    {
      var str := new Node.Str(s);
      var top := new Node.Concat(str, root);
      assert Flat(top) == Flat(root) + Flat(str);
      root, size, nodes := top, size + |s|, nodes + {str, top};
    }

    /** Appending a char array takes all its characters: of a string literal, the
        terminator too. */
    method AppendArray(s: array<char>)
      requires Valid()
      modifies this
      ensures Valid() && Text() == old(Text()) + s[..]
    {
      AppendString(s[..]);
    }

    /** operator+= on a C string stops before its first terminator. */
    method AppendCString(s: seq<char>) returns (ghost n: nat)
      requires Valid() && '\0' in s
      modifies this
      ensures Valid() && n < |s| && s[n] == '\0' && '\0' !in s[..n] && Text() == old(Text()) + s[..n]
    {
      var len := StrLen(s);
      n := len - 1;
      AppendString(s[..len - 1]);
    }

    /** Another rope, or this one again; its nodes are shared. */
    method Append(r: Rope)
      requires Valid() && r.Valid()
      modifies this
      ensures Valid() && Text() == old(Text()) + old(r.Text()) && old(nodes) + old(r.nodes) <= nodes
      ensures fresh(nodes - old(nodes) - old(r.nodes))
    {
      var top := new Node.Concat(r.root, root);
      assert Flat(top) == Flat(root) + Flat(r.root);
      root, size, nodes := top, size + r.size, nodes + r.nodes + {top};
    }

    /** operator+: the operands stay as they are. */
    static method Plus(lhs: Rope, rhs: Rope) returns (r: Rope)
      requires lhs.Valid() && rhs.Valid()
      ensures fresh(r) && r.Valid() && r.Text() == lhs.Text() + rhs.Text()
      ensures lhs.Valid() && rhs.Valid() && lhs.Text() == old(lhs.Text()) && rhs.Text() == old(rhs.Text())
    {
      r := new Rope.Copy(lhs);
      r.Append(rhs);
    }

    method At(index: nat) returns (c: char)
      requires Valid() && index < size
      ensures c == Text()[index]
    {
      var soFar, stop;
      c, soFar, stop := CharAt(root, index, size, false, '\0');
    }

    /** The flattened text with a terminator. */
    method CStr() returns (ret: array<char>)
      requires Valid()
      modifies nodes
      ensures fresh(ret) && ret.Length == size + 1 && ret[..] == Text() + ['\0']
      ensures Valid() && Text() == old(Text())
    {
      ret := new char[size + 1];
      var off := Flatten(ret, root, size, nodes);
      ret[size] := '\0';
    }
  }
}