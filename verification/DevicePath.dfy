/** Device paths: section 10.3 of the UEFI Specification, as a list of nodes closed by an End node. */
module DevicePath {
  import opened Bytes

  datatype Node = Node(nodeType: byte, subType: byte, data: seq<byte>) {
    function Length(): nat { 4 + |data| }
    predicate IsEnd() { nodeType == 0x7F && subType == 0xFF }
    predicate Legal() { !IsEnd() && Length() <= 0xFFFF }
  }

  const END_NODE: seq<byte> := [0x7F, 0xFF, 4, 0]
  const MAX_PATH_BYTES := 0x1_0000

  /** The node whose header is at `off`. */
  function NodeAt(b: seq<byte>, off: nat): (r: Result<Node>)
    ensures r.Ok? ==> off + r.value.Length() <= |b| && r.value.Length() <= 0xFFFF
  {
    if off + 4 > |b| then Err(Truncated)
    else
      var n := U16At(b, off + 2);
      if n < 4 then Err(BadLength)
      else if off + n > |b| then Err(Truncated)
      else Ok(Node(b[off], b[off + 1], b[off + 4..off + n]))
  }

  /** The nodes from `off` up to the first End node. */
  function NodesFrom(b: seq<byte>, off: nat): Result<seq<Node>>
    decreases |b| - off
  {
    match NodeAt(b, off)
    case Err(e) => Err(e)
    case Ok(n) => if n.IsEnd() then Ok([]) else Prepend([n], NodesFrom(b, off + n.Length()))
  }

  function Prepend<T>(a: seq<T>, r: Result<seq<T>>): Result<seq<T>> {
    match r
    case Err(e) => Err(e)
    case Ok(s) => Ok(a + s)
  }

  /** Where the walk from `off` meets the End node. */
  function EndOffset(b: seq<byte>, off: nat): (e: nat)
    requires NodesFrom(b, off).Ok?
    ensures off <= e && e + 4 <= |b| && NodeAt(b, e).Ok? && NodeAt(b, e).value.IsEnd()
    ensures NodesFrom(b, off) == Ok([]) <==> e == off
    decreases |b| - off
  {
    var n := NodeAt(b, off).value;
    if n.IsEnd() then off else EndOffset(b, off + n.Length())
  }

  function ParsedPath(b: seq<byte>): Result<seq<Node>> {
    if |b| > MAX_PATH_BYTES then Err(TooLarge) else NodesFrom(b, 0)
  }

  function NodeBytes(n: Node): seq<byte>
    requires n.Length() <= 0xFFFF
  {
    [n.nodeType, n.subType] + Le16(n.Length()) + n.data
  }

  /** The bytes of a node list and the End node; the first illegal node decides the error. */
  function PathBytes(nodes: seq<Node>): Result<seq<byte>> {
    if nodes == [] then Ok(END_NODE)
    else if nodes[0].IsEnd() then Err(EndNodeInPath)
    else if nodes[0].Length() > 0xFFFF then Err(BadLength)
    else Prepend(NodeBytes(nodes[0]), PathBytes(nodes[1..]))
  }

  lemma NodeAtBytes(b: seq<byte>, off: nat, n: Node)
    requires n.Length() <= 0xFFFF && off + n.Length() <= |b|
    requires b[off..off + n.Length()] == NodeBytes(n)
    ensures NodeAt(b, off) == Ok(n)
  {
    var r := NodeBytes(n);
    assert b[off] == b[off..off + |r|][0] && b[off + 1] == b[off..off + |r|][1];
    SubSlice(b, off, r, 2, 4);
    SubSlice(b, off, r, 4, |r|);
    ReadLe16(b, off + 2, n.Length());
  }

  lemma BytesOfNodeAt(b: seq<byte>, off: nat)
    requires NodeAt(b, off).Ok?
    ensures var n := NodeAt(b, off).value; b[off..off + n.Length()] == NodeBytes(n)
  {
    var n := NodeAt(b, off).value;
    WriteU16(b, off + 2);
    assert b[off..off + n.Length()] == [b[off], b[off + 1]] + b[off + 2..off + 4] + n.data;
  }

  /** Marshalling succeeds exactly on legal nodes. */
  lemma {:induction false} MarshalsLegalPaths(nodes: seq<Node>)
    ensures PathBytes(nodes).Ok? <==> forall i :: 0 <= i < |nodes| ==> nodes[i].Legal()
    ensures PathBytes(nodes).Ok? ==> |PathBytes(nodes).value| >= 4
    ensures PathBytes(nodes).Err? ==> PathBytes(nodes).error == EndNodeInPath || PathBytes(nodes).error == BadLength
  {
    if nodes != [] {
      MarshalsLegalPaths(nodes[1..]);
      assert forall i :: 1 <= i < |nodes| ==> nodes[i] == nodes[1..][i - 1];
    }
  }

  /** The first illegal node decides the error. */
  lemma {:induction false} FirstIllegalDecides(nodes: seq<Node>, i: nat)
    requires i < |nodes| && !nodes[i].Legal() && forall j :: 0 <= j < i ==> nodes[j].Legal()
    ensures PathBytes(nodes) == Err(if nodes[i].nodeType == 0x7F && nodes[i].subType == 0xFF then EndNodeInPath
                                    else BadLength)
  {
    if i > 0 {
      FirstIllegalDecides(nodes[1..], i - 1);
    }
  }

  /** Bytes a node list takes with its End node. */
  function PathLength(nodes: seq<Node>): nat {
    if nodes == [] then 4 else 4 + |nodes[0].data| + PathLength(nodes[1..])
  }

  lemma {:induction false} MarshalledLength(nodes: seq<Node>)
    requires PathBytes(nodes).Ok?
    ensures |PathBytes(nodes).value| == PathLength(nodes)
  {
    if nodes != [] {
      MarshalledLength(nodes[1..]);
    }
  }

  /** A node on disk: type, subtype, length including this header, data. */
  lemma NodeLayout(n: Node)
    requires n.Length() <= 0xFFFF
    ensures var b := NodeBytes(n);
            && |b| == 4 + |n.data| && b[0] == n.nodeType && b[1] == n.subType && U16At(b, 2) == |b| && b[4..] == n.data
  {
    var b := NodeBytes(n);
    assert b[2..4] == Le16(n.Length());
    ReadLe16(b, 2, n.Length());
  }

  /** The buffer spells the nodes up to `e`, where an End node closes them: of any length inside the
      buffer, with anything behind it. */
  predicate Spells(b: seq<byte>, nodes: seq<Node>, e: nat) {
    && e + 4 <= |b| && PathBytes(nodes) == Ok(b[..e] + [0x7F, 0xFF, 4, 0])
    && b[e] == 0x7F && b[e + 1] == 0xFF && 4 <= U16At(b, e + 2) && e + U16At(b, e + 2) <= |b|
  }

  /** Exactly which buffers parse, and to what: those of at most 64 KiB that spell the nodes. */
  lemma ParsedPathIsExact(b: seq<byte>, nodes: seq<Node>)
    ensures ParsedPath(b) == Ok(nodes) <==> |b| <= 0x1_0000 && exists e: nat :: Spells(b, nodes, e)
  {
    hide NodesFrom, PathBytes, U16At;
    if ParsedPath(b) == Ok(nodes) {
      MarshalParsedPath(b);
      EndIsInside(b, EndOffset(b, 0));
      assert Spells(b, nodes, EndOffset(b, 0));
    }
    if |b| <= 0x1_0000 && exists e: nat :: Spells(b, nodes, e) {
      var e: nat :| Spells(b, nodes, e);
      assert b[0..e] == b[..e];
      ParseSpelled(b, 0, nodes, e);
    }
  }

  lemma EndIsInside(b: seq<byte>, e: nat)
    requires NodeAt(b, e).Ok? && NodeAt(b, e).value.IsEnd()
    ensures b[e] == 0x7F && b[e + 1] == 0xFF && 4 <= U16At(b, e + 2) && e + U16At(b, e + 2) <= |b|
  {
    hide U16At;
  }

  lemma {:induction false} ParseSpelled(b: seq<byte>, off: nat, nodes: seq<Node>, e: nat)
    requires off <= e && e + 4 <= |b| && PathBytes(nodes) == Ok(b[off..e] + END_NODE)
    requires b[e] == 0x7F && b[e + 1] == 0xFF && 4 <= U16At(b, e + 2) && e + U16At(b, e + 2) <= |b|
    ensures NodesFrom(b, off) == Ok(nodes)
    decreases |nodes|
  {
    hide NodeAt, NodeBytes, U16At;
    var m := PathBytes(nodes).value;
    if nodes == [] {
      EndNodeParses(b, off);
    } else {
      var n, next := nodes[0], off + nodes[0].Length();
      var rest := PathBytes(nodes[1..]).value;
      NodeBytesLength(n);
      MarshalsLegalPaths(nodes[1..]);
      assert m == NodeBytes(n) + rest && |m| == e - off + 4;
      assert next <= e;
      assert b[off..next] == NodeBytes(n) by { assert m[..n.Length()] == b[off..next]; }
      assert rest == b[next..e] + END_NODE by { assert rest == m[n.Length()..]; }
      NodeAtBytes(b, off, n);
      ParseSpelled(b, next, nodes[1..], e);
      assert nodes == [n] + nodes[1..];
    }
  }

  lemma NodeBytesLength(n: Node)
    requires n.Length() <= 0xFFFF
    ensures |NodeBytes(n)| == n.Length()
  {
  }

  lemma EndNodeParses(b: seq<byte>, off: nat)
    requires off + 4 <= |b| && b[off] == 0x7F && b[off + 1] == 0xFF
    requires 4 <= U16At(b, off + 2) && off + U16At(b, off + 2) <= |b|
    ensures NodesFrom(b, off) == Ok([])
  {
    hide U16At;
  }

  /** Parsing what was marshalled gives the nodes back, unless the bytes pass the parser's ceiling. */
  lemma ParseMarshalledPath(nodes: seq<Node>)
    requires PathBytes(nodes).Ok?
    ensures var b := PathBytes(nodes).value;
            ParsedPath(b) == if |b| > MAX_PATH_BYTES then Err(TooLarge) else Ok(nodes)
  {
    hide NodesFrom, PathBytes;
    var b := PathBytes(nodes).value;
    MarshalsLegalPaths(nodes);
    EndsInEndNode(nodes);
    assert b == b[0..|b| - 4] + b[|b| - 4..];
    ReadEndNode(b, |b| - 4);
    ParseSpelled(b, 0, nodes, |b| - 4);
  }

  lemma {:induction false} EndsInEndNode(nodes: seq<Node>)
    requires PathBytes(nodes).Ok?
    ensures var b := PathBytes(nodes).value; |b| >= 4 && b[|b| - 4..] == END_NODE
  {
    hide NodeBytes;
    if nodes != [] {
      EndsInEndNode(nodes[1..]);
      SuffixOfSum(NodeBytes(nodes[0]), PathBytes(nodes[1..]).value, 4);
    }
  }

  lemma SuffixOfSum<T>(a: seq<T>, c: seq<T>, n: nat)
    requires n <= |c|
    ensures (a + c)[|a + c| - n..] == c[|c| - n..]
  {
  }

  lemma ReadEndNode(b: seq<byte>, e: nat)
    requires e + 4 == |b| && b[e..] == END_NODE
    ensures b[e] == 0x7F && b[e + 1] == 0xFF && U16At(b, e + 2) == 4
  {
    assert b[e] == b[e..][0] && b[e + 1] == b[e..][1] && b[e + 2] == b[e..][2] && b[e + 3] == b[e..][3];
  }

  lemma {:induction false} MarshalParsedAt(b: seq<byte>, off: nat)
    requires NodesFrom(b, off).Ok?
    ensures PathBytes(NodesFrom(b, off).value) == Ok(b[off..EndOffset(b, off)] + END_NODE)
    decreases |b| - off
  {
    hide NodeAt, NodeBytes;
    var n := NodeAt(b, off).value;
    if n.IsEnd() {
      assert b[off..off] + END_NODE == END_NODE;
    } else {
      var next, e := off + n.Length(), EndOffset(b, off);
      MarshalParsedAt(b, next);
      BytesOfNodeAt(b, off);
      var rest := NodesFrom(b, next).value;
      assert ([n] + rest)[1..] == rest;
      assert b[off..e] == b[off..next] + b[next..e];
      assert b[off..next] + b[next..e] + END_NODE == b[off..next] + (b[next..e] + END_NODE);
    }
  }

  /** Marshalling what was parsed keeps every byte up to the End node and writes a plain End node. It
      reproduces the input exactly when its End node is 4 bytes long and is the last thing in it. */
  lemma MarshalParsedPath(b: seq<byte>)
    requires ParsedPath(b).Ok?
    ensures var e := EndOffset(b, 0);
            && PathBytes(ParsedPath(b).value) == Ok(b[..e] + END_NODE)
            && (b[..e] + END_NODE == b <==> e + 4 == |b| && U16At(b, e + 2) == 4)
  {
    hide NodesFrom;
    var e := EndOffset(b, 0);
    MarshalParsedAt(b, 0);
    assert b[0..e] == b[..e];
    ReplacedEnd(b, e);
  }

  lemma ReplacedEnd(b: seq<byte>, e: nat)
    requires NodeAt(b, e).Ok? && NodeAt(b, e).value.IsEnd()
    ensures b[..e] + END_NODE == b <==> e + 4 == |b| && U16At(b, e + 2) == 4
  {
    if e + 4 == |b| && U16At(b, e + 2) == 4 {
      WriteU16(b, e + 2);
      assert b[e..] == [b[e], b[e + 1]] + b[e + 2..e + 4];
      assert b == b[..e] + b[e..];
    }
  }

  /** ParseDevicePath, with its loop guard, which never fires. */
  method ParseDevicePath(b: seq<byte>) returns (r: Result<seq<Node>>)
    ensures r == ParsedPath(b)
  {
    hide U16At;
    if |b| > MAX_PATH_BYTES { return Err(TooLarge); }
    var nodes: seq<Node> := [];
    var off, steps := 0, 0;
    PrependNothing(NodesFrom(b, 0));
    while true
      invariant steps <= off <= |b|
      invariant NodesFrom(b, 0) == Prepend(nodes, NodesFrom(b, off))
      decreases |b| - off
    {
      assert steps < |b| + 1; // NewLoopGuard(len(b)+1) allows this step
      steps := steps + 1;
      if off + 4 > |b| { return Err(Truncated); }
      var nodeLen := U16At(b, off + 2);
      if nodeLen < 4 { return Err(BadLength); }
      if off + nodeLen > |b| { return Err(Truncated); }
      var node := Node(b[off], b[off + 1], b[off + 4..off + nodeLen]);
      assert NodeAt(b, off) == Ok(node);
      if node.IsEnd() {
        assert nodes + [] == nodes;
        return Ok(nodes);
      }
      PrependTwice(nodes, node, NodesFrom(b, off + nodeLen));
      off := off + nodeLen;
      nodes := nodes + [node];
    }
  }

  lemma PrependNothing<T>(r: Result<seq<T>>)
    ensures Prepend([], r) == r
  {
    if r.Ok? {
      assert [] + r.value == r.value;
    }
  }

  lemma PrependTwice<T>(a: seq<T>, x: T, r: Result<seq<T>>)
    ensures Prepend(a, Prepend([x], r)) == Prepend(a + [x], r)
  {
    if r.Ok? {
      assert a + ([x] + r.value) == a + [x] + r.value;
    }
  }

  /** MarshalDevicePath. */
  method MarshalDevicePath(nodes: seq<Node>) returns (r: Result<seq<byte>>)
    ensures r == PathBytes(nodes)
  {
    hide Le16;
    var buf: seq<byte> := [];
    assert nodes[0..] == nodes;
    PrependNothing(PathBytes(nodes));
    for i := 0 to |nodes|
      invariant PathBytes(nodes) == Prepend(buf, PathBytes(nodes[i..]))
    {
      var n := nodes[i];
      assert nodes[i..][0] == n && nodes[i..][1..] == nodes[i + 1..];
      if n.IsEnd() { return Err(EndNodeInPath); }
      if n.Length() > 0xFFFF { return Err(BadLength); }
      var hdr := [n.nodeType, n.subType] + Le16(n.Length());
      ghost var rest := PathBytes(nodes[i + 1..]);
      if rest.Ok? {
        assert buf + (hdr + n.data + rest.value) == buf + hdr + n.data + rest.value;
      }
      buf := buf + hdr;
      buf := buf + n.data;
    }
    return Ok(buf + END_NODE);
  }
}
