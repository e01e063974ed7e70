/** Device paths, section 9.3.1 of the UEFI specification 2.4: a byte encoding of node lists, and what a walk
    over the bytes sees. */
module DevicePathNodes {
  import opened ByteBuffers
  import opened Sequences

  const HEADER := 4
  const END_TYPE := 0x7F
  const UNPACKED := 0x80
  const END_ENTIRE: byte := 0xFF
  const END_INSTANCE: byte := 0x01

  datatype Node = Node(kind: byte, sub: byte, payload: seq<byte>) {
    function Length(): nat { HEADER + |payload| }

    predicate IsEndType() { kind % UNPACKED == END_TYPE }

    predicate IsEnd() { IsEndType() && sub == END_ENTIRE }

    function Bytes(): (b: seq<byte>)
      ensures |b| == Length()
    {
      [kind, sub, Length() % 0x100, Length() / 0x100 % 0x100] + payload
    }
  }

  /** A list of nodes that ends with its only end-of-path node; lengths fit their two bytes. */
  predicate Path(ns: seq<Node>) {
    && ns != []
    && forall i :: 0 <= i < |ns| ==> ns[i].Length() < 0x1_0000 && (ns[i].IsEnd() <==> i == |ns| - 1)
  }

  function Encode(ns: seq<Node>): seq<byte> {
    if ns == [] then [] else ns[0].Bytes() + Encode(ns[1..])
  }

  // ----- The macros that read a node header at offset o -----

  predicate Header(b: seq<byte>, o: nat) {
    o + HEADER <= |b|
  }

  function DevicePathType(b: seq<byte>, o: nat): nat
    requires Header(b, o)
  {
    b[o] % UNPACKED
  }

  function DevicePathSubType(b: seq<byte>, o: nat): byte
    requires Header(b, o)
  {
    b[o + 1]
  }

  function DevicePathNodeLength(b: seq<byte>, o: nat): nat
    requires Header(b, o)
  {
    b[o + 2] + 0x100 * b[o + 3] as int
  }

  predicate IsDevicePathEndType(b: seq<byte>, o: nat)
    requires Header(b, o)
  {
    DevicePathType(b, o) == END_TYPE
  }

  predicate IsDevicePathEnd(b: seq<byte>, o: nat)
    requires Header(b, o)
  {
    IsDevicePathEndType(b, o) && DevicePathSubType(b, o) == END_ENTIRE
  }

  /** From offset o on, node follows node inside the buffer up to an end-of-path node. */
  predicate Walkable(b: seq<byte>, o: nat)
    decreases |b| - o
  {
    && Header(b, o)
    && HEADER <= DevicePathNodeLength(b, o) <= |b| - o
    && (IsDevicePathEnd(b, o) || Walkable(b, o + DevicePathNodeLength(b, o)))
  }

  function NodeAt(b: seq<byte>, o: nat): Node
    requires Header(b, o) && HEADER <= DevicePathNodeLength(b, o) <= |b| - o
  {
    Node(b[o], b[o + 1], b[o + HEADER..o + DevicePathNodeLength(b, o)])
  }

  /** The nodes a walk from o meets, the end node included. */
  function Nodes(b: seq<byte>, o: nat): (ns: seq<Node>)
    requires Walkable(b, o)
    ensures ns != []
    decreases |b| - o
  {
    if IsDevicePathEnd(b, o) then [NodeAt(b, o)]
    else [NodeAt(b, o)] + Nodes(b, o + DevicePathNodeLength(b, o))
  }

  // ----- Walking and encoding undo each other -----

  lemma NodeAtBytes(b: seq<byte>, o: nat)
    requires Header(b, o) && HEADER <= DevicePathNodeLength(b, o) <= |b| - o
    ensures NodeAt(b, o).Length() == DevicePathNodeLength(b, o) < 0x1_0000
    ensures b[o..o + DevicePathNodeLength(b, o)] == NodeAt(b, o).Bytes()
    ensures NodeAt(b, o).IsEnd() == IsDevicePathEnd(b, o) && NodeAt(b, o).IsEndType() == IsDevicePathEndType(b, o)
  {
    var n, l := NodeAt(b, o), DevicePathNodeLength(b, o);
    assert b[o..o + l] == [b[o], b[o + 1], b[o + 2], b[o + 3]] + n.payload;
  }

  lemma {:induction false} WalkIsEncoding(b: seq<byte>, o: nat)
    requires Walkable(b, o)
    ensures Path(Nodes(b, o))
    ensures o + |Encode(Nodes(b, o))| <= |b| && b[o..o + |Encode(Nodes(b, o))|] == Encode(Nodes(b, o))
    decreases |b| - o
  {
    NodeAtBytes(b, o);
    var n, l, ns := NodeAt(b, o), DevicePathNodeLength(b, o), Nodes(b, o);
    if IsDevicePathEnd(b, o) {
      EncodeFirst(n, []);
      assert ns == [n] + [];
    } else {
      var rest := Nodes(b, o + l);
      WalkIsEncoding(b, o + l);
      EncodeFirst(n, rest);
      Consecutive(b, o, o + l, o + l + |Encode(rest)|);
    }
  }

  lemma EncodeFirst(n: Node, rest: seq<Node>)
    ensures Encode([n] + rest) == n.Bytes() + Encode(rest)
    ensures n.Length() < 0x1_0000 && (if n.IsEnd() then rest == [] else Path(rest)) ==> Path([n] + rest)
  {
    assert ([n] + rest)[1..] == rest;
  }

  lemma NodeAtOfBytes(b: seq<byte>, o: nat, n: Node)
    requires n.Length() < 0x1_0000 && o + n.Length() <= |b| && b[o..o + n.Length()] == n.Bytes()
    ensures Header(b, o) && DevicePathNodeLength(b, o) == n.Length() && NodeAt(b, o) == n
  {
    var s := b[o..o + n.Length()];
    assert s[0] == b[o] && s[1] == b[o + 1] && s[2] == b[o + 2] && s[3] == b[o + 3];
    assert s[HEADER..] == n.payload;
  }

  lemma FirstNodeBytes(b: seq<byte>, o: nat, ns: seq<Node>)
    requires ns != [] && o + |Encode(ns)| <= |b| && b[o..o + |Encode(ns)|] == Encode(ns)
    ensures |Encode(ns)| == ns[0].Length() + |Encode(ns[1..])|
    ensures b[o..o + ns[0].Length()] == ns[0].Bytes()
    ensures b[o + ns[0].Length()..o + |Encode(ns)|] == Encode(ns[1..])
  {
    var l, e := ns[0].Length(), |Encode(ns)|;
    Slices(b, o, o + e, 0, l);
    Slices(b, o, o + e, l, e);
  }

  lemma {:induction false} EncodingIsWalked(b: seq<byte>, o: nat, ns: seq<Node>)
    requires Path(ns) && o + |Encode(ns)| <= |b| && b[o..o + |Encode(ns)|] == Encode(ns)
    ensures Walkable(b, o) && Nodes(b, o) == ns
    decreases |ns|
  {
    var n, l := ns[0], ns[0].Length();
    FirstNodeBytes(b, o, ns);
    NodeAtOfBytes(b, o, n);
    NodeAtBytes(b, o);
    if n.IsEnd() {
      assert ns == [n];
    } else {
      EncodingIsWalked(b, o + l, ns[1..]);
    }
  }
}

/** Instances of a path, and the operations that split and join paths. */
module DevicePaths {
  import opened Arithmetic
  import opened ByteBuffers
  import opened DevicePathNodes
  import opened Sequences

  datatype Option<T> = None | Some(value: T)

  // ----- Node lists -----

  /** A path whose end nodes, inner and last, are bare headers with a defined subtype. */
  ghost predicate WellFormed(ns: seq<Node>) {
    && Path(ns)
    && forall i :: 0 <= i < |ns| && ns[i].IsEndType() ==>
         ns[i].payload == [] && (ns[i].sub == END_ENTIRE || ns[i].sub == END_INSTANCE)
  }

  /** The number of nodes before the first end node of either kind. */
  function Leading(ns: seq<Node>): (k: nat)
    requires Path(ns)
    ensures k < |ns| && ns[k].IsEndType() && forall i :: 0 <= i < k ==> !ns[i].IsEndType()
  {
    FirstEndFrom(ns, 0)
  }

  function FirstEndFrom(ns: seq<Node>, i: nat): (k: nat)
    requires Path(ns) && i < |ns|
    ensures i <= k < |ns| && ns[k].IsEndType() && forall j :: i <= j < k ==> !ns[j].IsEndType()
    decreases |ns| - i
  {
    if ns[i].IsEndType() then i else FirstEndFrom(ns, i + 1)
  }

  function Instances(ns: seq<Node>): (insts: seq<seq<Node>>)
    requires Path(ns)
    ensures insts != []
    decreases |ns|
  {
    var k := Leading(ns);
    [ns[..k]] + if ns[k].IsEnd() then [] else Instances(ns[k + 1..])
  }

  lemma PathEnd(ns: seq<Node>)
    requires Path(ns)
    ensures ns[|ns| - 1].IsEnd() && forall i :: 0 <= i < |ns| - 1 ==> !ns[i].IsEnd()
    ensures forall i :: 0 <= i < |ns| ==> ns[i].Length() < 0x1_0000 && Path(ns[i..])
  {
  }

  lemma {:induction false} EncodeConcat(x: seq<Node>, y: seq<Node>)
    ensures Encode(x + y) == Encode(x) + Encode(y)
  {
    if x == [] {
      assert x + y == y;
    } else {
      assert (x + y)[1..] == x[1..] + y;
      EncodeConcat(x[1..], y);
    }
  }

  lemma EncodeOne(n: Node)
    ensures Encode([n]) == n.Bytes()
  {
    assert [n][1..] == [];
  }

  lemma EncodeSplit(ns: seq<Node>, k: nat)
    requires k < |ns|
    ensures Encode(ns[..k + 1]) == Encode(ns[..k]) + ns[k].Bytes()
    ensures Encode(ns) == Encode(ns[..k]) + ns[k].Bytes() + Encode(ns[k + 1..])
  {
    EncodeOneMore(ns, k);
    SplitAt(ns, k + 1);
    EncodeConcat(ns[..k + 1], ns[k + 1..]);
  }

  lemma EncodeOneMore(ns: seq<Node>, k: nat)
    requires k < |ns|
    ensures Encode(ns[..k + 1]) == Encode(ns[..k]) + ns[k].Bytes()
  {
    assert ns[..k + 1] == ns[..k] + [ns[k]];
    EncodeConcat(ns[..k], [ns[k]]);
    EncodeOne(ns[k]);
  }

  /** The sizes DevicePathInstance reports, each with the end node it leaves out. */
  function TotalSize(insts: seq<seq<Node>>): nat {
    if insts == [] then 0 else |Encode(insts[0])| + HEADER + TotalSize(insts[1..])
  }

  lemma {:induction false} InstancesFillThePath(ns: seq<Node>)
    requires WellFormed(ns)
    ensures TotalSize(Instances(ns)) == |Encode(ns)|
    decreases |ns|
  {
    var k := Leading(ns);
    var first, rest := ns[..k], ns[k + 1..];
    EncodeSplit(ns, k);
    if ns[k].IsEnd() {
      OnlyInstance(ns, k, first);
      assert [first][1..] == [] && rest == [];
    } else {
      FirstInstance(ns, k, first, rest);
      InstancesFillThePath(rest);
      assert ([first] + Instances(rest))[1..] == Instances(rest);
    }
  }

  /** Lists of nodes, each with the end node that follows it. */
  function Chained(insts: seq<seq<Node>>, ends: seq<Node>): seq<Node>
    requires |insts| == |ends|
  {
    if insts == [] then [] else insts[0] + [ends[0]] + Chained(insts[1..], ends[1..])
  }

  /** x with its last node made an end-of-instance node, then y. */
  function Joined(x: seq<Node>, y: seq<Node>): seq<Node>
    requires x != []
  {
    x[..|x| - 1] + [x[|x| - 1].(sub := END_INSTANCE)] + y
  }

  lemma JoinedPath(x: seq<Node>, y: seq<Node>)
    requires Path(x) && Path(y)
    ensures Path(Joined(x, y))
  {
  }

  lemma JoinedParts(x: seq<Node>, y: seq<Node>, k: nat)
    requires k < |x|
    ensures Joined(x, y)[..k] == x[..k]
    ensures Joined(x, y)[k + 1..] == if k == |x| - 1 then y else Joined(x[k + 1..], y)
  {
  }

  lemma {:induction false} JoinedInstances(x: seq<Node>, y: seq<Node>)
    requires Path(x) && Path(y)
    ensures Path(Joined(x, y)) && Instances(Joined(x, y)) == Instances(x) + Instances(y)
    decreases |x|
  {
    var j, k := Joined(x, y), Leading(x);
    JoinedPath(x, y);
    LeadingOfJoined(x, y);
    JoinedParts(x, y, k);
    FirstInstance(j, k, x[..k], j[k + 1..]);
    if x[k].IsEnd() {
      OnlyInstance(x, k, x[..k]);
    } else {
      var rest := Instances(x[k + 1..]);
      JoinedInstances(x[k + 1..], y);
      FirstInstance(x, k, x[..k], x[k + 1..]);
      Associate([x[..k]], rest, Instances(y));
    }
  }

  lemma OnlyInstance(ns: seq<Node>, k: nat, first: seq<Node>)
    requires Path(ns) && k == Leading(ns) && ns[k].IsEnd() && first == ns[..k]
    ensures Instances(ns) == [first] && k == |ns| - 1
  {
  }

  lemma FirstInstance(ns: seq<Node>, k: nat, first: seq<Node>, rest: seq<Node>)
    requires Path(ns) && k == Leading(ns) && !ns[k].IsEnd() && first == ns[..k] && rest == ns[k + 1..]
    ensures Path(rest) && Instances(ns) == [first] + Instances(rest)
  {
  }

  lemma LeadingOfJoined(x: seq<Node>, y: seq<Node>)
    requires Path(x) && Path(Joined(x, y))
    ensures Leading(Joined(x, y)) == Leading(x)
    ensures !Joined(x, y)[Leading(x)].IsEnd()
  {
    var j, k, m := Joined(x, y), Leading(x), Leading(Joined(x, y));
    JoinedKind(x, y, k);
    assert m <= k;
    JoinedKind(x, y, m);
  }

  lemma JoinedKind(x: seq<Node>, y: seq<Node>, i: nat)
    requires i < |x|
    ensures Joined(x, y)[i].IsEndType() == x[i].IsEndType()
  {
  }

  /** The path is these lists of nodes of which none ends an instance, each followed by one that does. */
  ghost predicate IsCut(ns: seq<Node>, insts: seq<seq<Node>>, ends: seq<Node>) {
    && |ends| == |insts| && Chained(insts, ends) == ns
    && (forall i :: 0 <= i < |ends| ==> ends[i].IsEndType())
    && forall i :: 0 <= i < |insts| ==> NoEnd(insts[i])
  }

  predicate NoEnd(inst: seq<Node>) {
    forall i :: 0 <= i < |inst| ==> !inst[i].IsEndType()
  }

  lemma CutFirst(first: seq<Node>, end: Node, rest: seq<Node>, insts: seq<seq<Node>>, ends: seq<Node>)
    requires NoEnd(first) && end.IsEndType() && IsCut(rest, insts, ends)
    ensures IsCut(first + [end] + rest, [first] + insts, [end] + ends)
  {
    assert ([first] + insts)[1..] == insts && ([end] + ends)[1..] == ends;
  }

  /** Between its end nodes, and nowhere else, a path is cut into its instances. */
  lemma {:induction false} InstancesMakeThePath(ns: seq<Node>) returns (ends: seq<Node>)
    requires Path(ns)
    ensures IsCut(ns, Instances(ns), ends)
    decreases |ns|
  {
    var k := Leading(ns);
    var first, end, rest := ns[..k], ns[k], ns[k + 1..];
    assert ns == first + [end] + rest;
    if end.IsEnd() {
      OnlyInstance(ns, k, first);
      assert rest == [] && [first] + [] == [first] && IsCut([], [], []);
      ends := [end] + [];
      CutFirst(first, end, rest, [], []);
    } else {
      FirstInstance(ns, k, first, rest);
      var after := InstancesMakeThePath(rest);
      ends := [end] + after;
      CutFirst(first, end, rest, Instances(rest), after);
    }
  }

  // ----- Walking -----

  /** A walk over ns that started at o stands at pos, before node i. */
  ghost predicate Standing(b: seq<byte>, o: nat, ns: seq<Node>, i: nat, pos: nat) {
    i < |ns| && pos == o + |Encode(ns[..i])| && Walkable(b, pos) && Nodes(b, pos) == ns[i..]
  }

  lemma StandingAtStart(b: seq<byte>, o: nat)
    requires Walkable(b, o)
    ensures Standing(b, o, Nodes(b, o), 0, o)
  {
    assert Nodes(b, o)[0..] == Nodes(b, o);
  }

  /** The node read at pos is node i, and the walk can go on unless it is the last. */
  lemma StandingNode(b: seq<byte>, o: nat, ns: seq<Node>, i: nat, pos: nat)
    requires Standing(b, o, ns, i, pos)
    ensures NodeAt(b, pos) == ns[i] && DevicePathNodeLength(b, pos) == ns[i].Length()
    ensures IsDevicePathEnd(b, pos) == ns[i].IsEnd() && IsDevicePathEndType(b, pos) == ns[i].IsEndType()
    ensures DevicePathSubType(b, pos) == ns[i].sub
    ensures ns[i].IsEnd() <==> i == |ns| - 1
    ensures pos + ns[i].Length() == o + |Encode(ns[..i + 1])|
    ensures !ns[i].IsEnd() ==> Standing(b, o, ns, i + 1, pos + ns[i].Length())
  {
    NodeAtBytes(b, pos);
    assert ns[i..][0] == ns[i];
    EncodeSplit(ns, i);
    WalkIsEncoding(b, pos);
    if !ns[i].IsEnd() {
      assert ns[i..][1..] == ns[i + 1..];
    }
  }

  // ----- Splitting -----

  // The walk of one instance gives up at this node.
  const MAX_NODES := 0x201

  /** Where the walk of the first instance stops: at its end node, or where it gives up. */
  function Stop(ns: seq<Node>): (k: nat)
    requires Path(ns)
    ensures k < |ns| && k <= Leading(ns)
  {
    if Leading(ns) <= MAX_NODES then Leading(ns) else MAX_NODES
  }

  lemma AfterStop(ns: seq<Node>)
    requires Path(ns) && ns[Stop(ns)].sub != END_ENTIRE
    ensures !ns[Stop(ns)].IsEnd() && Path(ns[Stop(ns) + 1..])
  {
    PathEnd(ns);
  }

  /** The pieces that one call of DevicePathInstance after the other takes off a path. */
  function Pieces(ns: seq<Node>): (pieces: seq<seq<Node>>)
    requires Path(ns)
    ensures pieces != [] && pieces[0] == ns[..Stop(ns)]
    decreases |ns|
  {
    var k := Stop(ns);
    if ns[k].sub == END_ENTIRE then [ns[..k]]
    else
      AfterStop(ns);
      [ns[..k]] + Pieces(ns[k + 1..])
  }

  ghost predicate Short(insts: seq<seq<Node>>) {
    forall i :: 0 <= i < |insts| ==> |insts[i]| <= MAX_NODES
  }

  lemma ShortUnfolds(first: seq<Node>, rest: seq<seq<Node>>)
    ensures Short([first] + rest) <==> |first| <= MAX_NODES && Short(rest)
  {
    var all := [first] + rest;
    assert all[0] == first && forall i :: 0 <= i < |rest| ==> rest[i] == all[i + 1];
  }

  lemma FirstPiece(ns: seq<Node>, k: nat, first: seq<Node>, rest: seq<Node>)
    requires Path(ns) && k == Stop(ns) && ns[k].sub != END_ENTIRE
    requires first == ns[..k] && rest == ns[k + 1..]
    ensures Path(rest) && Pieces(ns) == [first] + Pieces(rest)
  {
    AfterStop(ns);
  }

  lemma OnlyPiece(ns: seq<Node>, k: nat, first: seq<Node>)
    requires Path(ns) && k == Leading(ns) <= MAX_NODES && ns[k].IsEnd() && first == ns[..k]
    ensures Pieces(ns) == [first]
  {
  }

  lemma LongFirst(ns: seq<Node>)
    requires Path(ns) && Leading(ns) > MAX_NODES
    ensures |Pieces(ns)[0]| == MAX_NODES < |Instances(ns)[0]|
  {
  }

  lemma SameTails<T>(x: T, xs: seq<T>, ys: seq<T>)
    ensures [x] + xs == [x] + ys <==> xs == ys
  {
    assert ([x] + xs)[1..] == xs && ([x] + ys)[1..] == ys;
  }

  /** The pieces are the instances of the path exactly when no instance has more than 513 nodes. */
  lemma {:induction false} PiecesAreInstances(ns: seq<Node>)
    requires WellFormed(ns)
    ensures Pieces(ns) == Instances(ns) <==> Short(Instances(ns))
    decreases |ns|
  {
    var k := Leading(ns);
    if k > MAX_NODES {
      LongFirst(ns);
    } else if ns[k].IsEnd() {
      OnlyInstance(ns, k, ns[..k]);
      OnlyPiece(ns, k, ns[..k]);
    } else {
      var first, rest := ns[..k], ns[k + 1..];
      FirstEndNode(ns, k);
      FirstPiece(ns, k, first, rest);
      FirstInstance(ns, k, first, rest);
      PiecesAreInstances(rest);
      ShortUnfolds(first, Instances(rest));
      SameTails(first, Pieces(rest), Instances(rest));
    }
  }

  /** What DevicePathInstance reports for the path ns at o: the size of the first piece, and the path behind
      the node that ended it. */
  ghost predicate Reports(b: seq<byte>, o: nat, ns: seq<Node>, next: Option<nat>, size: nat)
    requires Path(ns)
  {
    var k := Stop(ns);
    && size == |Encode(ns[..k])|
    && if ns[k].sub == END_ENTIRE then next == None
       else next == Some(o + |Encode(ns[..k + 1])|) && Holds(b, next, ns[k + 1..])
  }

  /** A path pointer: NULL, or the start of a path with these nodes. */
  ghost predicate Holds(b: seq<byte>, devicePath: Option<nat>, ns: seq<Node>) {
    devicePath.Some? ==> Walkable(b, devicePath.value) && Nodes(b, devicePath.value) == ns && WellFormed(ns)
  }

  lemma FirstEndNode(ns: seq<Node>, k: nat)
    requires WellFormed(ns) && k == Leading(ns)
    ensures ns[k].Length() == HEADER && (ns[k].sub == END_ENTIRE || ns[k].sub == END_INSTANCE)
    ensures ns[k].IsEnd() <==> ns[k].sub == END_ENTIRE
    ensures !ns[k].IsEnd() ==> WellFormed(ns[k + 1..])
  {
  }

  lemma ReportsWhenStanding(b: seq<byte>, o: nat, ns: seq<Node>, k: nat, pos: nat, next: nat)
    requires WellFormed(ns) && k == Stop(ns) && Standing(b, o, ns, k, pos) && next == pos + ns[k].Length()
    ensures Reports(b, o, ns, if ns[k].sub == END_ENTIRE then None else Some(next), pos - o)
  {
    StandingNode(b, o, ns, k, pos);
    if ns[k].sub != END_ENTIRE {
      AfterStop(ns);
    }
  }

  lemma StandingWalk(b: seq<byte>, o: nat, ns: seq<Node>, i: nat, pos: nat)
    requires Standing(b, o, ns, i, pos)
    ensures DevicePathNodeLength(b, pos) == ns[i].Length() && (IsDevicePathEnd(b, pos) <==> i == |ns| - 1)
    ensures i < |ns| - 1 ==> Standing(b, o, ns, i + 1, pos + ns[i].Length())
  {
    StandingNode(b, o, ns, i, pos);
  }

  lemma StandingStep(b: seq<byte>, o: nat, ns: seq<Node>, i: nat, pos: nat)
    requires Path(ns) && Standing(b, o, ns, i, pos) && i <= Leading(ns)
    ensures DevicePathNodeLength(b, pos) == ns[i].Length()
    ensures IsDevicePathEndType(b, pos) <==> i == Leading(ns)
    ensures i < Leading(ns) ==> Standing(b, o, ns, i + 1, pos + ns[i].Length())
  {
    StandingNode(b, o, ns, i, pos);
  }

  /** The loop of DevicePathInstance: it stops at an end node unless it has given up. */
  method FindEndType(b: seq<byte>, start: nat, ghost ns: seq<Node>) returns (devPath: nat, nextNode: nat)
    requires Path(ns) && Walkable(b, start) && Nodes(b, start) == ns
    ensures Standing(b, start, ns, Stop(ns), devPath) && nextNode == devPath + ns[Stop(ns)].Length()
    ensures IsDevicePathEndType(b, devPath) <==> Leading(ns) <= 513
  {
    devPath := start;
    var count := 0;
    StandingAtStart(b, start);
    while true
      invariant 0 <= count <= Stop(ns) && Standing(b, start, ns, count, devPath)
      decreases Stop(ns) - count
    {
      StandingStep(b, start, ns, count, devPath);
      nextNode := devPath + DevicePathNodeLength(b, devPath);
      if IsDevicePathEndType(b, devPath) {
        break;
      }
      if count > 0x200 {
        break;
      }
      devPath := nextNode;
      count := count + 1;
    }
  }

  lemma StandingNext(b: seq<byte>, o: nat, ns: seq<Node>, i: nat, pos: nat, next: nat)
    requires Standing(b, o, ns, i, pos) && !IsDevicePathEnd(b, pos) && next == pos + DevicePathNodeLength(b, pos)
    ensures Standing(b, o, ns, i + 1, next)
  {
    StandingNode(b, o, ns, i, pos);
  }

  method DevicePathInstance(b: seq<byte>, devicePath: Option<nat>, ghost ns: seq<Node>)
    returns (start: Option<nat>, next: Option<nat>, size: nat)
    requires Holds(b, devicePath, ns)
    ensures start == devicePath && (devicePath.None? ==> next == None)
    ensures devicePath.Some? ==> Reports(b, devicePath.value, ns, next, size)
  {
    if devicePath.None? {
      return None, None, 0;
    }
    var devPath, nextNode := FindEndType(b, devicePath.value, ns);
    StandingNode(b, devicePath.value, ns, Stop(ns), devPath);
    ReportsWhenStanding(b, devicePath.value, ns, Stop(ns), devPath, nextNode);
    next := if DevicePathSubType(b, devPath) == END_ENTIRE then None else Some(nextNode);
    return devicePath, next, devPath - devicePath.value;
  }

  /** One call of DevicePathInstance takes the first piece off. */
  lemma TakePiece(b: seq<byte>, o: nat, ns: seq<Node>, next: Option<nat>, size: nat)
    requires WellFormed(ns) && Reports(b, o, ns, next, size)
    ensures size == |Encode(ns[..Stop(ns)])|
    ensures next.None? ==> Pieces(ns) == [ns[..Stop(ns)]]
    ensures next.Some? ==> var rest := ns[Stop(ns) + 1..];
                           Holds(b, next, rest) && Path(rest) && Pieces(ns) == [ns[..Stop(ns)]] + Pieces(rest)
  {
  }

  lemma EndedSize(ns: seq<Node>, k: nat)
    requires WellFormed(ns) && k == Leading(ns)
    ensures |Encode(ns[..k + 1])| == |Encode(ns[..k])| + HEADER
  {
    FirstEndNode(ns, k);
    EncodeOneMore(ns, k);
  }

  lemma ReportsEnded(b: seq<byte>, o: nat, ns: seq<Node>, k: nat, next: Option<nat>, size: nat)
    requires WellFormed(ns) && k == Leading(ns) <= MAX_NODES && Reports(b, o, ns, next, size)
    ensures size == |Encode(ns[..k])|
    ensures if ns[k].IsEnd() then next == None else next == Some(o + size + HEADER) && Holds(b, next, ns[k + 1..])
  {
    assert Stop(ns) == k;
    FirstEndNode(ns, k);
    EndedSize(ns, k);
  }

  /** If the first instance has up to 513 nodes, that is the whole instance, and the rest begins behind its end. */
  lemma TakeInstance(b: seq<byte>, o: nat, ns: seq<Node>, next: Option<nat>, size: nat)
    requires WellFormed(ns) && Reports(b, o, ns, next, size) && Leading(ns) <= MAX_NODES
    ensures size == |Encode(ns[..Leading(ns)])|
    ensures next.None? ==> Instances(ns) == [ns[..Leading(ns)]]
    ensures next.Some? ==> var rest := ns[Leading(ns) + 1..];
                           && next == Some(o + size + HEADER) && Holds(b, next, rest) && Path(rest)
                           && Instances(ns) == [ns[..Leading(ns)]] + Instances(rest)
  {
    var k := Leading(ns);
    ReportsEnded(b, o, ns, k, next, size);
    if ns[k].IsEnd() {
      OnlyInstance(ns, k, ns[..k]);
    } else {
      FirstInstance(ns, k, ns[..k], ns[k + 1..]);
    }
  }

  ghost predicate SizesOf(sizes: seq<nat>, insts: seq<seq<Node>>) {
    |sizes| == |insts| && forall i :: 0 <= i < |insts| ==> sizes[i] == |Encode(insts[i])|
  }

  lemma SizesOfOneMore(sizes: seq<nat>, insts: seq<seq<Node>>, inst: seq<Node>)
    requires SizesOf(sizes, insts)
    ensures SizesOf(sizes + [|Encode(inst)|], insts + [inst])
  {
  }

  /** The pieces taken so far and those of the path still to be split. */
  ghost predicate Splitting(b: seq<byte>, path: Option<nat>, pieces: seq<seq<Node>>, taken: seq<seq<Node>>,
                            left: seq<Node>)
  {
    && Holds(b, path, left)
    && (path.None? ==> pieces == taken)
    && (path.Some? ==> Path(left) && pieces == taken + Pieces(left))
  }

  lemma SplitOne(b: seq<byte>, path: nat, pieces: seq<seq<Node>>, taken: seq<seq<Node>>, left: seq<Node>,
                 next: Option<nat>, size: nat)
    returns (left': seq<Node>)
    requires Splitting(b, Some(path), pieces, taken, left) && Reports(b, path, left, next, size)
    ensures size == |Encode(left[..Stop(left)])|
    ensures Splitting(b, next, pieces, taken + [left[..Stop(left)]], left')
    ensures taken + [left[..Stop(left)]] <= pieces
    ensures if next.Some? then |left'| < |left| else left' == left
  {
    TakePiece(b, path, left, next, size);
    left' := if next.Some? then left[Stop(left) + 1..] else left;
    if next.Some? {
      Associate(taken, [left[..Stop(left)]], Pieces(left'));
    }
  }

  /** Splitting a path over and over gives its pieces one by one, with the sizes they have. */
  method DevicePathInstanceCount(b: seq<byte>, devicePath: nat, ghost ns: seq<Node>)
    returns (count: nat, ghost sizes: seq<nat>)
    requires Holds(b, Some(devicePath), ns)
    ensures count == |Pieces(ns)| && SizesOf(sizes, Pieces(ns))
    ensures Short(Instances(ns)) ==> count == |Instances(ns)| && SizesOf(sizes, Instances(ns))
  {
    var path := Some(devicePath);
    ghost var pieces, left, taken := Pieces(ns), ns, [];
    count, sizes := 0, [];
    while path.Some?
      invariant count == |taken| && SizesOf(sizes, taken) && Splitting(b, path, pieces, taken, left)
      decreases |left|, path.Some?
    {
      ghost var o, first := path.value, left[..Stop(left)];
      var start, next, size := DevicePathInstance(b, path, left);
      SizesOfOneMore(sizes, taken, first);
      left := SplitOne(b, o, pieces, taken, left, next, size);
      sizes, taken := sizes + [size], taken + [first];
      path := next;
      count := count + 1;
    }
    PiecesAreInstances(ns);
  }

  lemma SplitSizesFillThePath(ns: seq<Node>, sizes: seq<nat>)
    requires WellFormed(ns) && SizesOf(sizes, Instances(ns))
    ensures Sum(sizes) + HEADER * |sizes| == |Encode(ns)|
  {
    InstancesFillThePath(ns);
    SumIsTotalSize(sizes, Instances(ns));
  }

  function Sum(xs: seq<nat>): nat {
    if xs == [] then 0 else xs[0] + Sum(xs[1..])
  }

  lemma {:induction false} SumIsTotalSize(sizes: seq<nat>, insts: seq<seq<Node>>)
    requires SizesOf(sizes, insts)
    ensures Sum(sizes) + HEADER * |sizes| == TotalSize(insts)
  {
    if insts != [] {
      SumIsTotalSize(sizes[1..], insts[1..]);
    }
  }

  // ----- Joining -----

  method CopyMem(dst: array<byte>, at: nat, src: seq<byte>)
    requires at + |src| <= dst.Length
    modifies dst
    ensures dst[..] == Overwrite(old(dst[..]), at, src)
  {
    forall i | 0 <= i < |src| {
      dst[at + i] := src[i];
    }
  }

  /** The buffer holds a path with these nodes at its start. */
  ghost predicate PathIn(b: seq<byte>, ns: seq<Node>) {
    Walkable(b, 0) && Nodes(b, 0) == ns && WellFormed(ns)
  }

  lemma PathInBytes(b: seq<byte>, ns: seq<Node>)
    requires PathIn(b, ns)
    ensures |Encode(ns)| <= |b| && b[..|Encode(ns)|] == Encode(ns) && Path(ns)
  {
    WalkIsEncoding(b, 0);
  }

  lemma EncodedPathIn(b: seq<byte>, ns: seq<Node>)
    requires WellFormed(ns) && Encode(ns) <= b
    ensures PathIn(b, ns)
  {
    EncodingIsWalked(b, 0, ns);
  }

  /** The offset of the last node. */
  method FindEnd(b: seq<byte>, ghost ns: seq<Node>) returns (devPath: nat)
    requires PathIn(b, ns)
    ensures Standing(b, 0, ns, |ns| - 1, devPath)
  {
    devPath := 0;
    ghost var i := 0;
    StandingAtStart(b, 0);
    StandingNode(b, 0, ns, i, devPath);
    while !IsDevicePathEnd(b, devPath)
      invariant Standing(b, 0, ns, i, devPath)
      decreases |ns| - i
    {
      var next := devPath + DevicePathNodeLength(b, devPath);
      StandingNext(b, 0, ns, i, devPath, next);
      devPath := next;
      i := i + 1;
    }
    StandingNode(b, 0, ns, i, devPath);
  }

  lemma LastNode(ns: seq<Node>)
    requires WellFormed(ns)
    ensures ns[|ns| - 1].IsEnd() && ns[|ns| - 1].Length() == HEADER
    ensures Encode(ns) == Encode(ns[..|ns| - 1]) + ns[|ns| - 1].Bytes()
  {
    PathEnd(ns);
    EncodeSplit(ns, |ns| - 1);
    assert ns[|ns| - 1 + 1..] == [];
  }

  method DevicePathSize(b: seq<byte>, ghost ns: seq<Node>) returns (size: nat)
    requires PathIn(b, ns)
    ensures size == |Encode(ns)|
  {
    var devPath := FindEnd(b, ns);
    LastNode(ns);
    size := devPath + HEADER;
  }

  method DuplicateDevicePath(b: seq<byte>, ghost ns: seq<Node>) returns (copy: array<byte>)
    requires PathIn(b, ns)
    ensures fresh(copy) && copy[..] == Encode(ns) && PathIn(copy[..], ns)
  {
    var size := DevicePathSize(b, ns);
    PathInBytes(b, ns);
    copy := new byte[size];
    CopyMem(copy, 0, b[..size]);
    assert copy[..] == Encode(ns);
    EncodedPathIn(copy[..], ns);
  }

  method AppendDevicePathInstance(src: Option<seq<byte>>, instance: seq<byte>, ghost x: seq<Node>, ghost y: seq<Node>)
    returns (ptr: array<byte>)
    requires (src.Some? ==> PathIn(src.value, x)) && PathIn(instance, y)
    ensures fresh(ptr)
    ensures PathIn(ptr[..], if src.None? then y else Joined(x, y))
    ensures src.Some? ==> Instances(Joined(x, y)) == Instances(x) + Instances(y)
  {
    if src.None? {
      ptr := DuplicateDevicePath(instance, y);
      return;
    }
    var srcSize := DevicePathSize(src.value, x);
    var instanceSize := DevicePathSize(instance, y);
    PathInBytes(src.value, x);
    PathInBytes(instance, y);
    ptr := new byte[srcSize + instanceSize];
    CopyMem(ptr, 0, src.value[..srcSize]);
    var next := EndBecomesInstance(ptr, srcSize, x);
    ghost var left := ptr[..srcSize];
    CopyMem(ptr, next, instance[..instanceSize]);
    assert ptr[..] == left + Encode(y);
    JoinedBytes(x, y, left);
    JoinedWellFormed(x, y);
    EncodedPathIn(ptr[..], Joined(x, y));
    JoinedInstances(x, y);
  }

  /** The end node of a copied path, which takes up the first size bytes, is made an end-of-instance node. */
  method EndBecomesInstance(ptr: array<byte>, ghost size: nat, ghost x: seq<Node>) returns (next: nat)
    requires WellFormed(x) && size == |Encode(x)| <= ptr.Length && ptr[..size] == Encode(x)
    modifies ptr
    ensures ptr[..size] == InstanceEnded(x) && next == size
  {
    EncodedPathIn(ptr[..], x);
    var devPath := FindEnd(ptr[..], x);
    LastNode(x);
    StandingNode(ptr[..], 0, x, |x| - 1, devPath);
    next := devPath + DevicePathNodeLength(ptr[..], devPath);
    ptr[devPath + 1] := END_INSTANCE;
    assert ptr[..size] == old(ptr[..size])[devPath + 1 := END_INSTANCE];
  }

  ghost function InstanceEnded(x: seq<Node>): (b: seq<byte>)
    requires WellFormed(x)
    ensures |b| == |Encode(x)|
  {
    LastNode(x);
    Encode(x)[|Encode(x)| - HEADER + 1 := END_INSTANCE]
  }

  lemma JoinedBytes(x: seq<Node>, y: seq<Node>, left: seq<byte>)
    requires WellFormed(x) && left == InstanceEnded(x)
    ensures Encode(Joined(x, y)) == left + Encode(y)
  {
    LastNode(x);
    var before, n := x[..|x| - 1], x[|x| - 1];
    var m := n.(sub := END_INSTANCE);
    assert m.Bytes() == n.Bytes()[1 := END_INSTANCE];
    assert left == Encode(before) + m.Bytes();
    EncodeConcat(before + [m], y);
    EncodeConcat(before, [m]);
    EncodeOne(m);
  }

  lemma JoinedWellFormed(x: seq<Node>, y: seq<Node>)
    requires WellFormed(x) && WellFormed(y)
    ensures WellFormed(Joined(x, y))
  {
    JoinedPath(x, y);
  }

  const END_DEVICE_PATH: seq<byte> := [END_TYPE, END_ENTIRE, HEADER, 0]
  const END_INSTANCE_DEVICE_PATH: seq<byte> := [END_TYPE, END_INSTANCE, HEADER, 0]

  /** x without its end node, then y. */
  function Appended(x: seq<Node>, y: seq<Node>): seq<Node>
    requires x != []
  {
    x[..|x| - 1] + y
  }

  predicate IsUnpacked(b: seq<byte>) {
    b != [] && b[0] >= UNPACKED
  }

  /** What the copying loop writes: every piece, the second path with its end, and an end of instance. */
  function Copies(pieces: seq<seq<Node>>, src2: seq<byte>): seq<byte> {
    if pieces == [] then []
    else Copies(pieces[..|pieces| - 1], src2) + (Encode(pieces[|pieces| - 1]) + src2 + END_INSTANCE_DEVICE_PATH)
  }

  lemma CopiesOneMore(pieces: seq<seq<Node>>, piece: seq<Node>, src2: seq<byte>)
    ensures Copies(pieces + [piece], src2)
         == Copies(pieces, src2) + (Encode(piece) + src2 + END_INSTANCE_DEVICE_PATH)
  {
    assert (pieces + [piece])[..|pieces|] == pieces;
  }

  lemma {:induction false} CopiesGrow(pieces: seq<seq<Node>>, more: seq<seq<Node>>, src2: seq<byte>)
    ensures |Copies(pieces, src2)| <= |Copies(pieces + more, src2)|
    decreases |more|
  {
    if more == [] {
      assert pieces + more == pieces;
    } else {
      CopiesOneMore(pieces, more[0], src2);
      CopiesGrow(pieces + [more[0]], more[1..], src2);
      assert pieces + [more[0]] + more[1..] == pieces + more;
    }
  }

  lemma {:induction false} CopiesBegin(pieces: seq<seq<Node>>, src2: seq<byte>)
    requires pieces != []
    ensures HEADER <= |Copies(pieces, src2)|
    ensures Encode(pieces[0]) + src2 <= Copies(pieces, src2)[..|Copies(pieces, src2)| - HEADER]
    decreases |pieces|
  {
    var n := |pieces| - 1;
    if n > 0 {
      CopiesBegin(pieces[..n], src2);
    } else {
      assert Copies(pieces[..n], src2) == [];
    }
  }

  /** The buffer that AppendDevicePath allocates holds what it writes. */
  predicate Roomy(x: seq<Node>, y: seq<Node>)
    requires Path(x)
  {
    |Copies(Pieces(x), Encode(y))| <= |Encode(x)| * |Pieces(x)| + |Encode(y)|
  }

  lemma {:induction false} CopiesSize(insts: seq<seq<Node>>, src2: seq<byte>)
    ensures |Copies(insts, src2)| == TotalSize(insts) + |insts| * |src2|
    decreases |insts|
  {
    if insts != [] {
      var n := |insts| - 1;
      CopiesSize(insts[..n], src2);
      TotalSizeOneMore(insts[..n], insts[n]);
      assert insts == insts[..n] + [insts[n]];
      NextMultiple(n, |src2|);
    }
  }

  lemma {:induction false} TotalSizeOneMore(insts: seq<seq<Node>>, inst: seq<Node>)
    ensures TotalSize(insts + [inst]) == TotalSize(insts) + |Encode(inst)| + HEADER
    decreases |insts|
  {
    if insts != [] {
      assert (insts + [inst])[1..] == insts[1..] + [inst];
      TotalSizeOneMore(insts[1..], inst);
    }
  }

  /** For instances of up to 513 nodes that is so exactly when there is only one, or the second path is no
      longer than the first. */
  lemma WhenRoomy(x: seq<Node>, y: seq<Node>)
    requires WellFormed(x) && Short(Instances(x))
    ensures Roomy(x, y) <==> |Instances(x)| == 1 || |Encode(y)| <= |Encode(x)|
  {
    var n, s, t := |Instances(x)|, |Encode(x)|, |Encode(y)|;
    PiecesAreInstances(x);
    CopiesSize(Instances(x), Encode(y));
    InstancesFillThePath(x);
    MoreOfTheLarger(n, s, t);
  }

  lemma MoreOfTheLarger(n: nat, s: nat, t: nat)
    requires n > 0
    ensures s + n * t <= s * n + t <==> n == 1 || t <= s
  {
    NextMultiple(n - 1, t);
    NextMultiple(n - 1, s);
    if t <= s {
      Product(t, s, n - 1);
    } else if n > 1 {
      Product(s + 1, t, n - 1);
      assert (s + 1) * (n - 1) == s * (n - 1) + (n - 1);
    }
  }

  /** The result holds the nodes of the first followed by those of the second exactly when the first has one
      instance, of up to 513 nodes. */
  lemma AppendsAll(x: seq<Node>, y: seq<Node>)
    requires WellFormed(x)
    ensures Pieces(x)[0] + y == Appended(x, y) <==> |Instances(x)| == 1 && |x| - 1 <= MAX_NODES
  {
    var k := Leading(x);
    if x[k].IsEnd() {
      OnlyInstance(x, k, x[..k]);
    } else {
      FirstInstance(x, k, x[..k], x[k + 1..]);
      PathEnd(x);
    }
  }

  /** Whatever the first path, a walk of the result meets the nodes of its first piece and then the second path. */
  method AppendDevicePath(src1: Option<seq<byte>>, src2: Option<seq<byte>>, ghost x: seq<Node>, ghost y: seq<Node>)
    returns (dst: array<byte>)
    requires src1.Some? || src2.Some?
    requires (src1.Some? ==> PathIn(src1.value, x)) && (src2.Some? ==> PathIn(src2.value, y))
    requires src1.Some? && src2.Some? ==> Roomy(x, y)
    requires src1.None? ==> !IsUnpacked(src2.value)
    requires src2.None? ==> !IsUnpacked(src1.value)
    ensures fresh(dst)
    ensures PathIn(dst[..], if src1.None? then y else if src2.None? then x else Pieces(x)[0] + y)
  {
    if src1.None? {
      dst := DuplicateDevicePath(src2.value, y);
      return;
    }
    if src2.None? {
      dst := DuplicateDevicePath(src1.value, x);
      return;
    }
    var src1Size := DevicePathSize(src1.value, x);
    var src1Inst, _ := DevicePathInstanceCount(src1.value, 0, x);
    var src2Size := DevicePathSize(src2.value, y);
    PathInBytes(src2.value, y);
    assert src2.value[..src2Size] == Encode(y);
    dst := new byte[src1Size * src1Inst + src2Size];
    var dstPos := CopyInstances(dst, src1.value, src2.value[..src2Size], x);
    WalkOfCopies(dst[..], x, y, dstPos);
  }

  /** The copies stand at the front, the last of their end nodes changed. */
  ghost predicate Copied(b: seq<byte>, copies: seq<byte>, n: nat) {
    n + HEADER == |copies| <= |b| && b[..n + HEADER] == copies[..n] + END_DEVICE_PATH
  }

  lemma WalkOfCopies(b: seq<byte>, x: seq<Node>, y: seq<Node>, n: nat)
    requires WellFormed(x) && WellFormed(y)
    requires Copied(b, Copies(Pieces(x), Encode(y)), n)
    ensures PathIn(b, Pieces(x)[0] + y)
  {
    CopiesBegin(Pieces(x), Encode(y));
    PieceThenPath(x, y);
    var copies, e := Copies(Pieces(x), Encode(y)), Encode(Pieces(x)[0] + y);
    assert b[..|e|] == b[..n + HEADER][..|e|] == copies[..n][..|e|] == e;
    EncodedPathIn(b, Pieces(x)[0] + y);
  }

  lemma PieceThenPath(x: seq<Node>, y: seq<Node>)
    requires WellFormed(x) && WellFormed(y)
    ensures WellFormed(Pieces(x)[0] + y) && Encode(Pieces(x)[0] + y) == Encode(Pieces(x)[0]) + Encode(y)
  {
    var k := Stop(x);
    PathEnd(x);
    InFront(x, y, k);
    EncodeConcat(x[..k], y);
  }

  /** Nodes in front of an end may be followed by any path. */
  lemma InFront(x: seq<Node>, y: seq<Node>, k: nat)
    requires Path(x) && k <= Leading(x) && WellFormed(y)
    ensures WellFormed(x[..k] + y)
  {
  }

  lemma CopiesFit(pieces: seq<seq<Node>>, taken: seq<seq<Node>>, src2: seq<byte>)
    requires taken <= pieces
    ensures |Copies(taken, src2)| <= |Copies(pieces, src2)|
  {
    CopiesGrow(taken, pieces[|taken|..], src2);
    assert taken + pieces[|taken|..] == pieces;
  }

  lemma FrontBytes(b: seq<byte>, o: nat, ns: seq<Node>, k: nat)
    requires k < |ns| && o + |Encode(ns)| <= |b| && b[o..o + |Encode(ns)|] == Encode(ns)
    ensures o + |Encode(ns[..k])| <= |b| && b[o..o + |Encode(ns[..k])|] == Encode(ns[..k])
  {
    var e, p := |Encode(ns)|, |Encode(ns[..k])|;
    EncodeSplit(ns, k);
    Slices(b, o, o + e, 0, p);
    assert Encode(ns)[0..p] == Encode(ns[..k]);
  }

  lemma PieceBytes(b: seq<byte>, o: nat, ns: seq<Node>)
    requires Walkable(b, o) && Nodes(b, o) == ns && Path(ns)
    ensures o + |Encode(ns[..Stop(ns)])| <= |b|
    ensures b[o..o + |Encode(ns[..Stop(ns)])|] == Encode(ns[..Stop(ns)])
  {
    WalkIsEncoding(b, o);
    FrontBytes(b, o, ns, Stop(ns));
  }

  /** What has been written are the copies of the pieces taken so far, and those of all the pieces have room. */
  ghost predicate Copying(b: seq<byte>, path: Option<nat>, pieces: seq<seq<Node>>, taken: seq<seq<Node>>,
                          left: seq<Node>, written: seq<byte>, src2: seq<byte>)
  {
    && Splitting(b, path, pieces, taken, left)
    && written == Copies(taken, src2) && |written| <= |Copies(pieces, src2)|
  }

  /** One turn of the copying loop, seen from the splitting. */
  lemma CopyOne(b: seq<byte>, path: nat, pieces: seq<seq<Node>>, taken: seq<seq<Node>>, left: seq<Node>,
                written: seq<byte>, src2: seq<byte>, next: Option<nat>, size: nat)
    returns (taken': seq<seq<Node>>, left': seq<Node>, written': seq<byte>)
    requires Copying(b, Some(path), pieces, taken, left, written, src2) && Reports(b, path, left, next, size)
    ensures Copying(b, next, pieces, taken', left', written', src2) && |written'| <= |Copies(pieces, src2)|
    ensures if next.Some? then |left'| < |left| else left' == left
    ensures path + size <= |b|
    ensures written' == written + (b[path..path + size] + src2 + END_INSTANCE_DEVICE_PATH)
  {
    var first := left[..Stop(left)];
    left' := SplitOne(b, path, pieces, taken, left, next, size);
    taken' := taken + [first];
    PieceBytes(b, path, left);
    written' := NextCopy(pieces, taken, first, written, src2, b[path..path + size]);
  }

  lemma NextCopy(pieces: seq<seq<Node>>, taken: seq<seq<Node>>, first: seq<Node>, written: seq<byte>,
                 src2: seq<byte>, inst: seq<byte>)
    returns (written': seq<byte>)
    requires written == Copies(taken, src2) && inst == Encode(first) && taken + [first] <= pieces
    ensures written' == Copies(taken + [first], src2) && |written'| <= |Copies(pieces, src2)|
    ensures written' == written + (inst + src2 + END_INSTANCE_DEVICE_PATH)
  {
    written' := written + (inst + src2 + END_INSTANCE_DEVICE_PATH);
    CopiesOneMore(taken, first, src2);
    CopiesFit(pieces, taken + [first], src2);
  }

  /** The bytes of the next piece. */
  method NextInstance(src1: seq<byte>, path: Option<nat>, ghost src2: seq<byte>, ghost pieces: seq<seq<Node>>,
                      ghost taken: seq<seq<Node>>, ghost left: seq<Node>, ghost written: seq<byte>)
    returns (inst: seq<byte>, next: Option<nat>,
             ghost taken': seq<seq<Node>>, ghost left': seq<Node>, ghost written': seq<byte>)
    requires path.Some? && Copying(src1, path, pieces, taken, left, written, src2)
    ensures Copying(src1, next, pieces, taken', left', written', src2)
    ensures if next.Some? then |left'| < |left| else left' == left
    ensures |written'| <= |Copies(pieces, src2)| && written' == written + (inst + src2 + END_INSTANCE_DEVICE_PATH)
  {
    var start, size;
    start, next, size := DevicePathInstance(src1, path, left);
    taken', left', written' := CopyOne(src1, path.value, pieces, taken, left, written, src2, next, size);
    inst := src1[start.value..start.value + size];
  }

  lemma StartCopying(b: seq<byte>, x: seq<Node>, src2: seq<byte>)
    requires PathIn(b, x)
    ensures Copying(b, Some(0), Pieces(x), [], x, [], src2)
  {
    assert Pieces(x) == [] + Pieces(x);
  }

  lemma DoneCopying(b: seq<byte>, pieces: seq<seq<Node>>, taken: seq<seq<Node>>, left: seq<Node>,
                    written: seq<byte>, src2: seq<byte>)
    requires Copying(b, None, pieces, taken, left, written, src2) && pieces != []
    ensures written == Copies(pieces, src2) && HEADER <= |written|
  {
    CopiesBegin(pieces, src2);
  }

  /** The copying loop; the last end mark is then changed. */
  method CopyInstances(dst: array<byte>, src1: seq<byte>, src2: seq<byte>, ghost x: seq<Node>) returns (dstPos: nat)
    requires PathIn(src1, x) && |Copies(Pieces(x), src2)| <= dst.Length
    modifies dst
    ensures Copied(dst[..], Copies(Pieces(x), src2), dstPos)
  {
    var path: Option<nat> := Some(0);
    ghost var pieces, taken, left, written := Pieces(x), [], x, [];
    dstPos := 0;
    StartCopying(src1, x, src2);
    while path.Some?
      invariant Copying(src1, path, pieces, taken, left, written, src2)
      invariant dstPos == |written| <= dst.Length && dst[..dstPos] == written
      decreases |left|, path.Some?
    {
      var inst;
      inst, path, taken, left, written := NextInstance(src1, path, src2, pieces, taken, left, written);
      dstPos := CopyInstance(dst, dstPos, inst, src2);
    }
    DoneCopying(src1, pieces, taken, left, written, src2);
    dstPos := ChangeLastEnd(dst, dstPos, written);
  }

  method ChangeLastEnd(dst: array<byte>, end: nat, ghost written: seq<byte>) returns (dstPos: nat)
    requires HEADER <= end == |written| <= dst.Length && dst[..end] == written
    modifies dst
    ensures Copied(dst[..], written, dstPos)
  {
    dstPos := end - HEADER;
    OverwriteFront(dst[..], dstPos, END_DEVICE_PATH);
    assert dst[..][..dstPos] == written[..dstPos];
    CopyMem(dst, dstPos, END_DEVICE_PATH);
    assert dst[..end] == dst[..][..end];
  }

  method CopyInstance(dst: array<byte>, at: nat, inst: seq<byte>, src2: seq<byte>) returns (dstPos: nat)
    requires at + |inst| + |src2| + HEADER <= dst.Length
    modifies dst
    ensures dstPos == at + |inst| + |src2| + HEADER
    ensures dst[..] == Overwrite(old(dst[..]), at, inst + src2 + END_INSTANCE_DEVICE_PATH)
    ensures dst[..dstPos] == old(dst[..at]) + (inst + src2 + END_INSTANCE_DEVICE_PATH)
  {
    OverwriteTwice(dst[..], at, inst, src2);
    OverwriteTwice(dst[..], at, inst + src2, END_INSTANCE_DEVICE_PATH);
    OverwriteFront(dst[..], at, inst + src2 + END_INSTANCE_DEVICE_PATH);
    dstPos := at;
    CopyMem(dst, dstPos, inst);
    dstPos := dstPos + |inst|;
    CopyMem(dst, dstPos, src2);
    dstPos := dstPos + |src2|;
    CopyMem(dst, dstPos, END_INSTANCE_DEVICE_PATH);
    dstPos := dstPos + HEADER;
    assert dst[..dstPos] == dst[..][..dstPos];
  }

  /** The second argument is one node, without an end. */
  method AppendDevicePathNode(src1: Option<seq<byte>>, src2: seq<byte>, ghost x: seq<Node>, ghost n: Node)
    returns (dst: array<byte>)
    requires src1.Some? ==> PathIn(src1.value, x) && Roomy(x, [n, END_NODE])
    requires n.Length() < 0x1_0000 && !n.IsEndType() && n.Bytes() <= src2
    requires src1.None? ==> n.kind < UNPACKED
    ensures PathIn(dst[..], if src1.None? then [n, END_NODE] else Pieces(x)[0] + [n, END_NODE])
  {
    NodeAtOfBytes(src2, 0, n);
    var length := DevicePathNodeLength(src2, 0);
    var temp := new byte[length + HEADER];
    CopyMem(temp, 0, src2[..length]);
    NodeAtOfBytes(temp[..], 0, n);
    var eop := DevicePathNodeLength(temp[..], 0);
    SetDevicePathEndNode(temp, eop);
    ghost var y := [n, END_NODE];
    EncodePair(n, END_NODE);
    assert temp[..] == n.Bytes() + END_DEVICE_PATH;
    assert y[1..] == [END_NODE];
    EncodedPathIn(temp[..], y);
    dst := AppendDevicePath(src1, Some(temp[..]), x, y);
  }

  const END_NODE := Node(END_TYPE, END_ENTIRE, [])

  lemma EncodePair(m: Node, n: Node)
    ensures Encode([m, n]) == m.Bytes() + n.Bytes()
  {
    assert [m, n][1..] == [n];
    EncodeOne(n);
  }

  method SetDevicePathEndNode(a: array<byte>, o: nat)
    requires o + HEADER <= a.Length
    modifies a
    ensures a[..] == Overwrite(old(a[..]), o, END_DEVICE_PATH)
  {
    a[o] := END_TYPE;
    a[o + 1] := END_ENTIRE;
    a[o + 2] := HEADER;
    a[o + 3] := 0;
  }
}

/** Re-aligning a path: every node is padded so that the next one starts at a multiple of 8. */
module DevicePathUnpacking {
  import opened ByteBuffers
  import opened DevicePathNodes
  import opened DevicePaths

  const MIN_ALIGNMENT_SIZE := 8

  function AlignSize(a: nat): (r: nat)
    ensures r < MIN_ALIGNMENT_SIZE && (a + r) % MIN_ALIGNMENT_SIZE == 0
  {
    if a % MIN_ALIGNMENT_SIZE != 0 then MIN_ALIGNMENT_SIZE - a % MIN_ALIGNMENT_SIZE else 0
  }

  function Zeros(n: nat): (z: seq<byte>)
    ensures |z| == n
  {
    seq(n, _ => 0)
  }

  /** The same node, marked, with zero padding behind its payload. */
  function Unpacked(n: Node): (u: Node)
    ensures u.IsEnd() == n.IsEnd() && u.IsEndType() == n.IsEndType() && u.sub == n.sub
    ensures u.Length() == n.Length() + AlignSize(n.Length())
    ensures u.Length() % MIN_ALIGNMENT_SIZE == 0
    ensures u.kind % UNPACKED == n.kind % UNPACKED && u.kind >= UNPACKED
  {
    Node(SetUnpacked(n.kind), n.sub, n.payload + Zeros(AlignSize(n.Length())))
  }

  function SetUnpacked(kind: byte): byte {
    if kind < UNPACKED then kind + UNPACKED else kind
  }

  function UnpackAll(ns: seq<Node>): (us: seq<Node>)
    ensures |us| == |ns| && forall i :: 0 <= i < |ns| ==> us[i] == Unpacked(ns[i])
  {
    seq(|ns|, i requires 0 <= i < |ns| => Unpacked(ns[i]))
  }

  /** A marked node with the type, the subtype and the payload of n, and behind it the fewest zeros that make the
      length a multiple of 8. */
  predicate IsAligned(n: Node, u: Node) {
    && u.kind % UNPACKED == n.kind % UNPACKED && u.kind >= UNPACKED && u.sub == n.sub
    && u.Length() % MIN_ALIGNMENT_SIZE == 0 && |u.payload| < |n.payload| + MIN_ALIGNMENT_SIZE
    && n.payload <= u.payload && forall i :: |n.payload| <= i < |u.payload| ==> u.payload[i] == 0
  }

  predicate AreAligned(ns: seq<Node>, us: seq<Node>) {
    |us| == |ns| && forall i :: 0 <= i < |ns| ==> IsAligned(ns[i], us[i])
  }

  lemma UnpackedIsAligned(n: Node)
    ensures IsAligned(n, Unpacked(n))
  {
    assert Unpacked(n).payload[..|n.payload|] == n.payload;
  }

  /** Nothing is lost: the payloads, the types and the subtypes are those of the original nodes. */
  lemma AllAreAligned(ns: seq<Node>)
    ensures AreAligned(ns, UnpackAll(ns))
  {
    forall i | 0 <= i < |ns|
      ensures IsAligned(ns[i], UnpackAll(ns)[i])
    {
      UnpackedIsAligned(ns[i]);
    }
  }

  // Two bytes hold the padded length of such a node.
  const MAX_LENGTH := 65528

  ghost predicate Fitting(ns: seq<Node>) {
    forall i :: 0 <= i < |ns| ==> ns[i].Length() <= MAX_LENGTH
  }

  lemma UnpackedPath(ns: seq<Node>)
    requires Path(ns) && Fitting(ns)
    ensures Path(UnpackAll(ns))
  {
  }

  lemma UnpackOneMore(ns: seq<Node>, i: nat)
    requires i < |ns|
    ensures Encode(UnpackAll(ns[..i + 1])) == Encode(UnpackAll(ns[..i])) + Unpacked(ns[i]).Bytes()
  {
    var us := UnpackAll(ns[..i + 1]);
    assert us[..i] == UnpackAll(ns[..i]) && us[..i + 1] == us;
    EncodeOneMore(us, i);
  }

  /** Node i of the result starts at a multiple of 8. */
  lemma {:induction false} Aligned(ns: seq<Node>, i: nat)
    requires i <= |ns|
    ensures |Encode(UnpackAll(ns[..i]))| % MIN_ALIGNMENT_SIZE == 0
  {
    if i > 0 {
      Aligned(ns, i - 1);
      UnpackOneMore(ns, i - 1);
      AddMultiples(|Encode(UnpackAll(ns[..i - 1]))|, Unpacked(ns[i - 1]).Length());
    }
  }

  lemma AddMultiples(a: nat, b: nat)
    requires a % MIN_ALIGNMENT_SIZE == 0 && b % MIN_ALIGNMENT_SIZE == 0
    ensures (a + b) % MIN_ALIGNMENT_SIZE == 0
  {
  }

  /** Aligning the running total is aligning each length. */
  lemma AlignTotal(total: nat, length: nat)
    requires total % MIN_ALIGNMENT_SIZE == 0
    ensures total + length + AlignSize(total + length) == total + (length + AlignSize(length))
  {
  }

  lemma SizeStep(ns: seq<Node>, i: nat, size: nat)
    requires i < |ns| && size == |Encode(UnpackAll(ns[..i]))|
    ensures var total := size + ns[i].Length();
      total + AlignSize(total) == |Encode(UnpackAll(ns[..i + 1]))|
  {
    UnpackOneMore(ns, i);
    Aligned(ns, i);
    AlignTotal(size, ns[i].Length());
  }

  /** The first pass. */
  method UnpackedSize(b: seq<byte>, ghost ns: seq<Node>) returns (size: nat)
    requires PathIn(b, ns)
    ensures size == |Encode(UnpackAll(ns))|
  {
    var src: nat := 0;
    ghost var i := 0;
    size := 0;
    StandingAtStart(b, 0);
    while true
      invariant Standing(b, 0, ns, i, src)
      invariant size == |Encode(UnpackAll(ns[..i]))|
      decreases |ns| - i
    {
      StandingWalk(b, 0, ns, i, src);
      SizeStep(ns, i, size);
      size := size + DevicePathNodeLength(b, src);
      size := size + AlignSize(size);
      if IsDevicePathEnd(b, src) {
        break;
      }
      src := src + DevicePathNodeLength(b, src);
      i := i + 1;
    }
    assert ns[..i + 1] == ns;
  }

  method SetDevicePathNodeLength(a: array<byte>, o: nat, l: nat)
    requires o + HEADER <= a.Length
    modifies a
    ensures a[..] == Overwrite(old(a[..]), o + 2, [l % 0x100, l / 0x100 % 0x100])
  {
    a[o + 2] := l % 0x100;
    a[o + 3] := l / 0x100 % 0x100;
  }

  lemma KindStays(s: seq<byte>, at: nat, n: Node)
    requires at + n.Length() <= |s|
    ensures var l := Unpacked(n).Length();
      Overwrite(Overwrite(s, at, n.Bytes()), at + 2, [l % 0x100, l / 0x100 % 0x100])[at] == n.kind
  {
  }

  /** One node of the second pass. */
  method UnpackNode(dst: array<byte>, at: nat, b: seq<byte>, src: nat, ghost n: Node) returns (next: nat)
    requires Header(b, src) && HEADER <= DevicePathNodeLength(b, src) <= |b| - src && NodeAt(b, src) == n
    requires at + n.Length() <= dst.Length
    modifies dst
    ensures next == at + Unpacked(n).Length() && dst[..] == AfterUnpacking(old(dst[..]), at, n)
  {
    NodeAtBytes(b, src);
    var size := DevicePathNodeLength(b, src);
    ghost var s := dst[..];
    CopyMem(dst, at, b[src..src + size]);
    size := size + AlignSize(size);
    assert dst[..] == Overwrite(s, at, n.Bytes()) && size == Unpacked(n).Length();
    SetDevicePathNodeLength(dst, at, size);
    KindStays(s, at, n);
    ghost var marked := dst[..][at := SetUnpacked(n.kind)];
    assert dst[at] == dst[..][at] == n.kind;
    dst[at] := SetUnpacked(dst[at]);
    assert dst[..] == marked;
    next := at + size;
  }

  /** The three writes to the space of one node. */
  function AfterUnpacking(s: seq<byte>, at: nat, n: Node): (r: seq<byte>)
    requires at + n.Length() <= |s|
    ensures |r| == |s|
  {
    var l := Unpacked(n).Length();
    Overwrite(Overwrite(s, at, n.Bytes()), at + 2, [l % 0x100, l / 0x100 % 0x100])[at := SetUnpacked(n.kind)]
  }

  lemma NodePatched(s: seq<byte>, at: nat, n: Node)
    requires at + Unpacked(n).Length() <= |s| && forall i :: at <= i < |s| ==> s[i] == 0
    ensures var r, next := AfterUnpacking(s, at, n), at + Unpacked(n).Length();
      r[..next] == s[..at] + Unpacked(n).Bytes() && forall i :: next <= i < |s| ==> r[i] == 0
  {
    var r, u := AfterUnpacking(s, at, n), Unpacked(n).Bytes();
    forall k | 0 <= k < |u|
      ensures r[at + k] == u[k]
    {
      if HEADER <= k < n.Length() {
        assert u[k] == n.payload[k - HEADER] == n.Bytes()[k];
      }
    }
  }

  /** The first i nodes of ns stand unpacked at the front, up to dest, and nothing has been written behind them. */
  ghost predicate Filled(s: seq<byte>, ns: seq<Node>, i: nat, dest: nat) {
    && i <= |ns| && |s| == |Encode(UnpackAll(ns))|
    && dest == |Encode(UnpackAll(ns[..i]))| <= |s| && s[..dest] == Encode(UnpackAll(ns[..i]))
    && forall k :: dest <= k < |s| ==> s[k] == 0
  }

  lemma FilledNext(s: seq<byte>, ns: seq<Node>, i: nat, dest: nat)
    requires Filled(s, ns, i, dest) && i < |ns|
    ensures dest + ns[i].Length() <= |s|
    ensures Filled(AfterUnpacking(s, dest, ns[i]), ns, i + 1, dest + Unpacked(ns[i]).Length())
  {
    UnpackOneMore(ns, i);
    RoomForNode(ns, i);
    NodePatched(s, dest, ns[i]);
  }

  lemma FilledAll(s: seq<byte>, ns: seq<Node>, dest: nat)
    requires Filled(s, ns, |ns|, dest)
    ensures s == Encode(UnpackAll(ns))
  {
    assert ns[..|ns|] == ns && s[..|s|] == s;
  }

  /** The result are the unpacked nodes, each at a multiple of 8; it can be walked, and the walk meets them,
      exactly when no node is longer than 65528 bytes. */
  method UnpackDevicePath(b: seq<byte>, ghost ns: seq<Node>) returns (newPath: array<byte>)
    requires PathIn(b, ns)
    ensures fresh(newPath) && newPath[..] == Encode(UnpackAll(ns))
    ensures forall i :: 0 <= i <= |ns| ==> |Encode(UnpackAll(ns)[..i])| % MIN_ALIGNMENT_SIZE == 0
    ensures Walkable(newPath[..], 0) <==> Fitting(ns)
    ensures Fitting(ns) ==> Nodes(newPath[..], 0) == UnpackAll(ns) && AreAligned(ns, Nodes(newPath[..], 0))
  {
    var size := UnpackedSize(b, ns);
    newPath := new byte[size](_ => 0);
    var src: nat, dest: nat := 0, 0;
    ghost var i := 0;
    StandingAtStart(b, 0);
    while true
      invariant Standing(b, 0, ns, i, src) && Filled(newPath[..], ns, i, dest)
      decreases |ns| - i
    {
      StandingNode(b, 0, ns, i, src);
      FilledNext(newPath[..], ns, i, dest);
      dest := UnpackNode(newPath, dest, b, src, ns[i]);
      if IsDevicePathEnd(b, src) {
        break;
      }
      src := src + DevicePathNodeLength(b, src);
      i := i + 1;
    }
    FilledAll(newPath[..], ns, dest);
    AllAreAligned(ns);
    AlignedEverywhere(ns);
    WalkableIfFitting(newPath[..], ns);
  }

  lemma AlignedEverywhere(ns: seq<Node>)
    ensures forall i :: 0 <= i <= |ns| ==> |Encode(UnpackAll(ns)[..i])| % MIN_ALIGNMENT_SIZE == 0
  {
    forall i | 0 <= i <= |ns|
      ensures |Encode(UnpackAll(ns)[..i])| % MIN_ALIGNMENT_SIZE == 0
    {
      Aligned(ns, i);
      assert UnpackAll(ns)[..i] == UnpackAll(ns[..i]);
    }
  }

  /** A re-aligned path can be walked exactly when every node fits, and then the walk meets its nodes. */
  lemma WalkableIfFitting(s: seq<byte>, ns: seq<Node>)
    requires Path(ns) && s == Encode(UnpackAll(ns))
    ensures Walkable(s, 0) <==> Fitting(ns)
    ensures Fitting(ns) ==> Nodes(s, 0) == UnpackAll(ns)
  {
    if Fitting(ns) {
      UnpackedPath(ns);
      EncodingIsWalked(s, 0, UnpackAll(ns));
    } else if Walkable(s, 0) {
      assert s[0..|s|] == s;
      WalkedNodesFit(s, 0, ns, UnpackAll(ns));
    }
  }

  lemma StuckAtLong(s: seq<byte>, o: nat, n: Node, u: Node)
    requires MAX_LENGTH < n.Length() < 0x1_0000 && u == Unpacked(n)
    requires o + u.Length() <= |s| && s[o..o + u.Length()] == u.Bytes()
    ensures !Walkable(s, o)
  {
    TooLongToUnpack(n);
    assert s[o + 2] == u.Bytes()[2] && s[o + 3] == u.Bytes()[3];
  }

  lemma WalkOn(s: seq<byte>, o: nat, u: Node)
    requires o + u.Length() <= |s| && s[o..o + u.Length()] == u.Bytes() && u.Length() < 0x1_0000 && !u.IsEnd()
    ensures Walkable(s, o) ==> Walkable(s, o + u.Length())
  {
    NodeAtOfBytes(s, o, u);
    NodeAtBytes(s, o);
  }

  lemma RestUnpacked(ns: seq<Node>)
    requires Path(ns) && !ns[0].IsEnd()
    ensures Path(ns[1..]) && UnpackAll(ns)[1..] == UnpackAll(ns[1..])
    ensures Fitting(ns[1..]) && ns[0].Length() <= MAX_LENGTH ==> Fitting(ns)
  {
    assert forall i :: 1 <= i < |ns| ==> ns[i] == ns[1..][i - 1];
  }

  /** A walk that does not get stuck has met no node that does not fit: the length of one reads as zero. */
  lemma {:induction false} WalkedNodesFit(s: seq<byte>, o: nat, ns: seq<Node>, us: seq<Node>)
    requires Path(ns) && us == UnpackAll(ns) && Walkable(s, o)
    requires o + |Encode(us)| <= |s| && s[o..o + |Encode(us)|] == Encode(us)
    ensures Fitting(ns)
    decreases |ns|
  {
    FirstNodeBytes(s, o, us);
    FirstNodeFits(s, o, ns[0], us[0]);
    if !ns[0].IsEnd() {
      RestUnpacked(ns);
      WalkOn(s, o, us[0]);
      WalkedNodesFit(s, o + us[0].Length(), ns[1..], us[1..]);
    }
  }

  lemma FirstNodeFits(s: seq<byte>, o: nat, n: Node, u: Node)
    requires n.Length() < 0x1_0000 && u == Unpacked(n) && Walkable(s, o)
    requires o + u.Length() <= |s| && s[o..o + u.Length()] == u.Bytes()
    ensures n.Length() <= MAX_LENGTH && u.Length() < 0x1_0000
  {
    if n.Length() > MAX_LENGTH {
      StuckAtLong(s, o, n, u);
    }
  }

  /** Both passes agree, so node i fits in what the first one asked for. */
  lemma RoomForNode(ns: seq<Node>, i: nat)
    requires i < |ns|
    ensures |Encode(UnpackAll(ns[..i + 1]))| <= |Encode(UnpackAll(ns))|
  {
    var us := UnpackAll(ns);
    assert us[..i + 1] == UnpackAll(ns[..i + 1]);
    EncodeSplit(us, i);
    EncodeOneMore(us, i);
  }

  /** A longer node cannot be unpacked: its padded length leaves its two bytes zero. */
  lemma TooLongToUnpack(n: Node)
    requires n.Length() < 0x1_0000
    ensures Unpacked(n).Bytes()[2] == 0 && Unpacked(n).Bytes()[3] == 0 <==> n.Length() > MAX_LENGTH
  {
  }
}
