/** Greedy routing through a delay-tolerant network of four levels of four nodes. */
module Dtn {

  const NODES := 4                       // in each level
  const LEVELS := 4
  const SIZE := 18
  const SENDER := 17
  const RECEIVER := 16
  const PATH_SIZE := 54
  const INFINITY := 0xffff_ffff_ffff_ffff
  const WAIT_COST := 10

  type U64 = x: int | 0 <= x <= 0xffff_ffff_ffff_ffff witness 0

  datatype Node = Node(up: bool, cost: seq<U64>)

  function Level(node: nat): nat { node / NODES }

  // ----- what a route is -----

  /** The network: eighteen nodes with a finite cost for each of their links. */
  predicate Wired(net: seq<Node>) {
    && |net| == SIZE
    && (forall k :: 0 <= k < SIZE ==> |net[k].cost| == NODES)
    && (forall k, j :: 0 <= k < SIZE && k != RECEIVER && 0 <= j < NODES ==> net[k].cost[j] < INFINITY)
  }

  predicate Ready(net: seq<Node>) {
    && Wired(net) && net[RECEIVER].up
    && exists k :: 0 <= k < NODES && net[k].up
  }

  /** How many links lead on from a level. */
  function Onward(level: nat): nat { if level < LEVELS - 1 then NODES else 1 }

  /** Node `to` is an up node of the `count` nodes from `base` on, none of them cheaper to
      reach over `cost`, and the first of its price. */
  predicate Cheapest(net: seq<Node>, cost: seq<U64>, base: nat, count: nat, to: nat)
    requires base + count <= |net| && count <= |cost|
  {
    && base <= to < base + count && net[to].up
    && (forall k :: base <= k < base + count && net[k].up ==> cost[to - base] <= cost[k - base])
    && (forall k :: base <= k < to && net[k].up ==> cost[to - base] < cost[k - base])
  }

  predicate AllDown(net: seq<Node>, base: nat, count: nat)
    requires base + count <= |net|
  {
    forall k :: base <= k < base + count ==> !net[k].up
  }

  /** One hop from a node that is not the receiver: forward to the cheapest node of the
      next level, or sideways within its level when that whole level is down. */
  predicate Hop(net: seq<Node>, at: nat, to: nat)
    requires Wired(net) && at < RECEIVER
  {
    var base, count := (Level(at) + 1) * NODES, Onward(Level(at));
    if AllDown(net, base, count) then to == Level(at) * NODES + (at + 1) % NODES
    else Cheapest(net, net[at].cost, base, count, to)
  }

  /** A node drawn anew: five numbers from `pos` on. */
  function Drawn(stream: nat -> U64, pos: nat): Node {
    Node(stream(pos) % 1024 >= 973, seq(NODES, j requires 0 <= j < NODES => stream(pos + 1 + j) % 1024))
  }

  function LevelDrawn(net: seq<Node>, level: nat, stream: nat -> U64, pos: nat): (r: seq<Node>)
    requires |net| == SIZE && level < LEVELS
    ensures |r| == SIZE
  {
    seq(SIZE, k requires 0 <= k < SIZE =>
      if Level(k) == level then Drawn(stream, pos + 5 * (k - level * NODES)) else net[k])
  }

  lemma LevelDrawnWired(net: seq<Node>, level: nat, stream: nat -> U64, pos: nat)
    requires Wired(net) && level < LEVELS
    ensures var r := LevelDrawn(net, level, stream, pos); Wired(r) && r[RECEIVER] == net[RECEIVER]
  {
  }

  /** Costs drawn from `pos` on. */
  function CostsDrawn(stream: nat -> U64, pos: nat): (costs: seq<U64>)
    ensures |costs| == NODES
  {
    seq(NODES, j requires 0 <= j < NODES => stream(pos + j) % 1024)
  }

  /** The network at the start: everything up, the costs drawn node by node, the sender's last. */
  function InitialNetwork(stream: nat -> U64, pos: nat): (net: seq<Node>)
    ensures |net| == SIZE
  {
    seq(SIZE, k requires 0 <= k < SIZE =>
      if k == RECEIVER then Node(true, [INFINITY, INFINITY, INFINITY, INFINITY])
      else Node(true, CostsDrawn(stream, pos + NODES * (if k == SENDER then RECEIVER else k))))
  }

  /** All levels drawn anew, node by node. */
  function NodesDrawn(net: seq<Node>, stream: nat -> U64, pos: nat): (r: seq<Node>)
    requires |net| == SIZE
    ensures |r| == SIZE
  {
    seq(SIZE, k requires 0 <= k < SIZE => if k < RECEIVER then Drawn(stream, pos + 5 * k) else net[k])
  }

  /** The network between two runs: all levels drawn anew, a node of the first level raised
      if none is up, and then the sender's costs. */
  function Redrawn(net: seq<Node>, stream: nat -> U64, pos: nat): (r: (seq<Node>, nat))
    requires |net| == SIZE
    ensures |r.0| == SIZE
  {
    var drawn, here := NodesDrawn(net, stream, pos), pos + 5 * RECEIVER;
    var down := AllDown(drawn, 0, NODES);
    var lucky := stream(here) % 1024 % NODES;
    var raised := if down then drawn[lucky := drawn[lucky].(up := true)] else drawn;
    var next := if down then here + 1 else here;
    (raised[SENDER := raised[SENDER].(cost := CostsDrawn(stream, next))], next + NODES)
  }

  /** A node of a route, and the network and the random stream when it was reached. */
  datatype Stop = Stop(node: nat, net: seq<Node>, pos: nat)

  /** Waiting redraws the next level. */
  function Reached(from: Stop, to: nat, stream: nat -> U64): Stop
    requires |from.net| == SIZE && from.node < RECEIVER
  {
    var next := Level(from.node) + 1;
    if Level(to) == Level(from.node) && next < LEVELS
    then Stop(to, LevelDrawn(from.net, next, stream, from.pos), from.pos + 20)
    else Stop(to, from.net, from.pos)
  }

  predicate Sound(s: Stop) { Wired(s.net) && s.net[RECEIVER].up && s.node <= RECEIVER }

  predicate Leg(from: Stop, to: Stop, stream: nat -> U64)
    requires Sound(from)
  {
    from.node < RECEIVER && Hop(from.net, from.node, to.node) && to == Reached(from, to.node, stream)
  }

  /** A route from the cheapest first node on, every leg of it a proper hop. */
  ghost predicate Route(route: seq<Stop>, stream: nat -> U64) {
    && route != [] && (forall k :: 0 <= k < |route| ==> Sound(route[k]))
    && Cheapest(route[0].net, route[0].net[SENDER].cost, 0, NODES, route[0].node)
    && (forall k, l :: 0 <= k && l == k + 1 && l < |route| ==> Leg(route[k], route[l], stream))
  }

  function Waited(from: Stop, to: Stop): nat { if Level(to.node) == Level(from.node) then 1 else 0 }

  /** How many legs stayed in their level. */
  function Waits(route: seq<Stop>): nat {
    if |route| <= 1 then 0
    else Waits(route[..|route| - 1]) + Waited(route[|route| - 2], route[|route| - 1])
  }

  /** The cost of the links chosen, and ten for each wait. */
  function Cost(route: seq<Stop>): nat
    requires route != [] && forall k :: 0 <= k < |route| ==> Sound(route[k])
  {
    var last := |route| - 1;
    assert Sound(route[0]) && Sound(route[last]) && (last > 0 ==> Sound(route[last - 1]));
    if last == 0 then route[0].net[SENDER].cost[route[0].node % NODES]
    else Cost(route[..last]) + LegCost(route[last - 1], route[last])
  }

  // ----- lengths -----

  lemma HopLevel(net: seq<Node>, at: nat, to: nat)
    requires Wired(net) && at < RECEIVER && Hop(net, at, to) && net[RECEIVER].up
    ensures Level(to) == Level(at) || Level(to) == Level(at) + 1
    ensures to <= RECEIVER
    ensures Level(at) == LEVELS - 1 ==> to == RECEIVER
  {
  }

  /** What a hop is, over all nodes of the next level: to the cheapest one that is up, or
      sideways when there is none. */
  lemma HopIsCheapest(net: seq<Node>, at: nat, to: nat)
    requires Wired(net) && at < RECEIVER && Hop(net, at, to)
    ensures if forall k :: 0 <= k <= RECEIVER && Level(k) == Level(at) + 1 ==> !net[k].up then
              Level(to) == Level(at) && to % NODES == (at + 1) % NODES
            else
              && to <= RECEIVER && Level(to) == Level(at) + 1 && net[to].up
              && forall k :: 0 <= k <= RECEIVER && Level(k) == Level(at) + 1 && net[k].up ==>
                   net[at].cost[to % NODES] <= net[at].cost[k % NODES]
  {
  }

  /** The level reached and the waits made account for every leg. */
  lemma {:induction false} RouteLength(route: seq<Stop>, stream: nat -> U64)
    requires Route(route, stream)
    ensures |route| == 1 + Level(route[|route| - 1].node) + Waits(route)
    decreases |route|
  {
    hide Hop, Wired, Reached;
    var last := |route| - 1;
    if last > 0 {
      var shorter := route[..last];
      assert Route(shorter, stream);
      RouteLength(shorter, stream);
      assert shorter[last - 1] == route[last - 1];
      assert Leg(route[last - 1], route[last], stream);
      HopLevel(route[last - 1].net, route[last - 1].node, route[last].node);
    }
  }

  /** A route that has arrived has five nodes and one for every wait. */
  lemma ArrivedLength(route: seq<Stop>, stream: nat -> U64)
    requires Route(route, stream)
    ensures Level(route[|route| - 1].node) == LEVELS <==> route[|route| - 1].node == RECEIVER
    ensures route[|route| - 1].node == RECEIVER ==> |route| == 5 + Waits(route)
    ensures route[|route| - 1].node != RECEIVER ==> |route| < 5 + Waits(route)
  {
    RouteLength(route, stream);
  }

  function LegCost(from: Stop, to: Stop): nat
    requires Sound(from)
  {
    assert Wired(from.net);
    if Waited(from, to) == 1 then WAIT_COST else from.net[from.node].cost[to.node % NODES]
  }

  function Wrap(x: nat): U64 { x % (INFINITY + 1) }

  lemma WrapSum(x: nat, y: nat)
    ensures Wrap(Wrap(x) + y) == Wrap(x + y)
  {
  }

  lemma RouteExtends(route: seq<Stop>, to: Stop, stream: nat -> U64)
    requires Route(route, stream) && Leg(route[|route| - 1], to, stream) && Sound(to)
    ensures Route(route + [to], stream)
    ensures Wrap(Cost(route + [to])) == Wrap(Wrap(Cost(route)) + LegCost(route[|route| - 1], to))
  {
    hide Leg, Cheapest, LegCost, Wrap, Cost, Sound;
    CostExtends(route, to);
    WrapSum(Cost(route), LegCost(route[|route| - 1], to));
  }

  lemma CostExtends(route: seq<Stop>, to: Stop)
    requires route != [] && Sound(to) && forall k :: 0 <= k < |route| ==> Sound(route[k])
    ensures Cost(route + [to]) == Cost(route) + LegCost(route[|route| - 1], to)
  {
    hide Sound, LegCost;
    assert (route + [to])[..|route|] == route;
  }

  // ----- the program -----

  class Network {
    const nodes: array<Node>
    const stream: nat -> U64               // what rand returns, call by call
    var pos: nat

    predicate Valid()
      reads nodes
    {
      nodes.Length == SIZE
    }

    constructor (stream: nat -> U64)
      ensures Valid() && fresh(nodes) && pos == 0 && this.stream == stream
    {
      nodes := new Node[SIZE](_ => Node(false, [0, 0, 0, 0]));
      this.stream := stream;
      pos := 0;
    }

    /** UMOD2(rand(), 10) */
    method Draw() returns (r: U64)
      modifies this`pos
      ensures r == stream(old(pos)) % 1024 && pos == old(pos) + 1
    {
      r := stream(pos) % 1024;
      pos := pos + 1;
    }

    /** A node's status and costs, drawn in the order of the program. */
    method DrawNode(index: nat)
      requires Valid() && index < SIZE && |nodes[index].cost| == NODES
      modifies this`pos, nodes
      ensures nodes[..] == old(nodes[..])[index := Drawn(stream, old(pos))] && pos == old(pos) + 5
    {
      var status := Draw();
      nodes[index] := nodes[index].(up := status >= 973);
      var j := 0;
      while j < NODES
        invariant 0 <= j <= NODES && pos == old(pos) + 1 + j
        invariant |nodes[index].cost| == NODES && nodes[index].up == Drawn(stream, old(pos)).up
        invariant nodes[..] == old(nodes[..])[index := nodes[index]]
        invariant forall i :: 0 <= i < j ==> nodes[index].cost[i] == stream(old(pos) + 1 + i) % 1024
      {
        var c := Draw();
        nodes[index] := nodes[index].(cost := nodes[index].cost[j := c]);
        j := j + 1;
      }
      assert nodes[index].cost == Drawn(stream, old(pos)).cost;
    }

    /** random_status_level */
    method RandomStatusLevel(level: nat)
      requires Valid() && level < LEVELS && Wired(nodes[..])
      modifies this`pos, nodes
      ensures nodes[..] == LevelDrawn(old(nodes[..]), level, stream, old(pos)) && pos == old(pos) + 20
    {
      var i := 0;
      while i < NODES
        invariant 0 <= i <= NODES && pos == old(pos) + 5 * i
        invariant forall k :: 0 <= k < SIZE ==>
          nodes[k] == if level * NODES <= k < level * NODES + i then Drawn(stream, old(pos) + 5 * (k - level * NODES))
                      else old(nodes[k])
      {
        DrawNode(level * NODES + i);
        i := i + 1;
      }
    }

    /** The two selection loops: the cheapest up node of `count` nodes from `base` on, or
        `from` and an infinite price if all are down. */
    method Select(from: nat, costs: seq<U64>, base: nat, count: nat) returns (next: nat, minCost: U64)
      requires Valid() && base + count <= SIZE && count <= |costs| == NODES
      requires forall j :: 0 <= j < NODES ==> costs[j] < INFINITY
      ensures AllDown(nodes[..], base, count) ==> next == from && minCost == INFINITY
      ensures !AllDown(nodes[..], base, count) ==>
        Cheapest(nodes[..], costs, base, count, next) && minCost == costs[next - base]
    {
      next, minCost := from, INFINITY;
      var i := 0;
      while i < count
        invariant 0 <= i <= count
        invariant AllDown(nodes[..], base, i) ==> next == from && minCost == INFINITY
        invariant !AllDown(nodes[..], base, i) ==>
          Cheapest(nodes[..], costs, base, i, next) && minCost == costs[next - base]
      {
        if nodes[base + i].up {
          if costs[i] < minCost {
            next, minCost := base + i, costs[i];
          }
        }
        i := i + 1;
      }
    }

    /** The body of the routing loop. */
    method Advance(current: nat, cost: U64, ghost from: Stop) returns (next: nat, total: U64)
      requires Valid() && current < RECEIVER && Sound(from) && from == Stop(current, nodes[..], pos)
      modifies nodes, this`pos
      ensures var to := Stop(next, nodes[..], pos);
        Leg(from, to, stream) && Sound(to) && total == Wrap(cost + LegCost(from, to))
    {
      hide LevelDrawn, Drawn, Cheapest;
      var price;
      next, price := Select(current, nodes[current].cost, (Level(current) + 1) * NODES, Onward(Level(current)));
      if next == current {
        next := Level(current) * NODES + (current + 1) % NODES;
        total := Wrap(cost + WAIT_COST);
        LevelDrawnWired(nodes[..], Level(next) + 1, stream, pos);
        RandomStatusLevel(Level(next) + 1);
      } else {
        total := Wrap(cost + price);
      }
    }

    /** The route of `length` nodes stands in `path`, and ends in the present network. */
    ghost predicate Recorded(path: array<U64>, length: nat, route: seq<Stop>, cost: U64)
      reads this, nodes, path
    {
      && Valid() && 1 <= length == |route| <= path.Length == PATH_SIZE && Route(route, stream)
      && (forall k :: 0 <= k < length ==> path[k] == route[k].node)
      && route[length - 1].net == nodes[..] && route[length - 1].pos == pos
      && cost == Wrap(Cost(route))
    }

    lemma Departure(net: seq<Node>, first: nat)
      requires Wired(net) && net[RECEIVER].up && Cheapest(net, net[SENDER].cost, 0, NODES, first)
      ensures var route := [Stop(first, net, pos)];
        Route(route, stream) && Cost(route) == net[SENDER].cost[first] && Wrap(Cost(route)) == Cost(route)
    {
      var route := [Stop(first, net, pos)];
      assert Sound(route[0]);
    }

    /** The routing loop: from the first node on to the receiver, or to the end of `path`. */
    method Travel(path: array<U64>, first: nat, firstCost: U64, ghost start: seq<Stop>)
        returns (cost: U64, length: nat, ghost route: seq<Stop>)
      requires path as object != nodes && Recorded(path, 1, start, firstCost) && path[0] == first
      modifies nodes, this`pos, path
      ensures Recorded(path, length, route, cost) && route[0] == start[0]
      ensures route[length - 1].node == RECEIVER || length == PATH_SIZE
      ensures forall k :: length <= k < PATH_SIZE ==> path[k] == old(path[k])
    {
      hide Leg, LegCost, Cheapest, Wired, Cost, Wrap, Route;
      var current := first;
      cost, length, route := firstCost, 1, start;
      while Level(current) != LEVELS && length < PATH_SIZE
        invariant Recorded(path, length, route, cost) && route[0] == start[0] && current == route[length - 1].node
        invariant forall k :: length <= k < PATH_SIZE ==> path[k] == old(path[k])
        decreases PATH_SIZE - length
      {
        SoundAt(route, length - 1);
        var next, total := Advance(current, cost, route[length - 1]);
        ghost var to := Stop(next, nodes[..], pos);
        RouteExtends(route, to, stream);
        path[length] := next;
        current, cost, length, route := next, total, length + 1, route + [to];
      }
      SoundAt(route, length - 1);
    }

    lemma SoundAt(route: seq<Stop>, k: nat)
      requires Route(route, stream) && k < |route|
      ensures Sound(route[k])
    {
    }

    /** greedy_path: the route it takes, written to `path`, and its cost. With a random
        stream that keeps the nodes down, the program waits on; here the path ends when
        `path` is full. If the whole first level is down, the path is the sender alone. */
    method GreedyPath(path: array<U64>) returns (arrived: bool, cost: U64, length: nat, ghost route: seq<Stop>)
      requires Valid() && Wired(nodes[..]) && nodes[RECEIVER].up && path.Length == PATH_SIZE && path as object != nodes
      modifies nodes, this`pos, path
      ensures 1 <= length <= PATH_SIZE && forall k :: length <= k < PATH_SIZE ==> path[k] == old(path[k])
      ensures old(AllDown(nodes[..], 0, NODES)) ==> !arrived && length == 1 && path[0] == SENDER && cost == 0
      ensures !old(AllDown(nodes[..], 0, NODES)) ==>
        && Recorded(path, length, route, cost) && route[0].net == old(nodes[..]) && route[0].pos == old(pos)
        && (arrived <==> path[length - 1] == RECEIVER)
        && (if arrived then length == 5 + Waits(route) else length == PATH_SIZE && Waits(route) > 49)
    {
      var current, minCost := Select(SENDER, nodes[SENDER].cost, 0, NODES);
      path[0] := current;
      if current == SENDER {
        return false, 0, 1, [];
      }
      Departure(nodes[..], current);
      cost, length, route := Travel(path, current, minCost, [Stop(current, nodes[..], pos)]);
      ArrivedLength(route, stream);
      arrived := Level(path[length - 1]) == LEVELS;
    }

    /** network_init */
    method Init()
      requires Valid() && forall k :: 0 <= k < SIZE ==> |nodes[k].cost| == NODES
      modifies nodes, this`pos
      ensures Valid() && Ready(nodes[..])
      ensures nodes[..] == InitialNetwork(stream, old(pos)) && pos == old(pos) + NODES * (RECEIVER + 1)
      ensures forall k :: 0 <= k < SIZE ==> nodes[k].up
      ensures forall k, j :: 0 <= k < SIZE && 0 <= j < NODES ==>
        if k == RECEIVER then nodes[k].cost[j] == INFINITY else nodes[k].cost[j] < 1024
    {
      var i := 0;
      while i < RECEIVER
        invariant 0 <= i <= RECEIVER && forall k :: 0 <= k < SIZE ==> |nodes[k].cost| == NODES
        invariant forall k :: 0 <= k < i ==> nodes[k] == Node(true, CostsDrawn(stream, old(pos) + NODES * k))
        invariant pos == old(pos) + NODES * i
        invariant forall k, j :: 0 <= k < i && 0 <= j < NODES ==> nodes[k].cost[j] < 1024
      {
        DrawCosts(i);
        nodes[i] := nodes[i].(up := true);
        i := i + 1;
      }
      nodes[RECEIVER] := Node(true, [INFINITY, INFINITY, INFINITY, INFINITY]);
      DrawCosts(SENDER);
      nodes[SENDER] := nodes[SENDER].(up := true);
      assert nodes[..][0].up;
    }

    /** Ten-bit costs for the links of one node. */
    method DrawCosts(index: nat)
      requires Valid() && index < SIZE && |nodes[index].cost| == NODES
      modifies nodes, this`pos
      ensures forall k :: 0 <= k < SIZE && k != index ==> nodes[k] == old(nodes[k])
      ensures nodes[index].up == old(nodes[index].up)
      ensures nodes[index].cost == CostsDrawn(stream, old(pos)) && pos == old(pos) + NODES
    {
      var j := 0;
      while j < NODES
        invariant 0 <= j <= NODES && |nodes[index].cost| == NODES && nodes[index].up == old(nodes[index].up)
        invariant forall k :: 0 <= k < SIZE && k != index ==> nodes[k] == old(nodes[k])
        invariant pos == old(pos) + j && forall i :: 0 <= i < j ==> nodes[index].cost[i] == stream(old(pos) + i) % 1024
      {
        var c := Draw();
        nodes[index] := nodes[index].(cost := nodes[index].cost[j := c]);
        j := j + 1;
      }
    }

    /** The first loop of random_status_all. */
    method DrawNodes()
      requires Valid() && Wired(nodes[..]) && nodes[RECEIVER].up
      modifies nodes, this`pos
      ensures nodes[..] == NodesDrawn(old(nodes[..]), stream, old(pos)) && pos == old(pos) + 5 * RECEIVER
      ensures Wired(nodes[..])
    {
      var i := 0;
      while i < RECEIVER
        invariant 0 <= i <= RECEIVER && pos == old(pos) + 5 * i
        invariant forall k :: 0 <= k < SIZE ==>
          nodes[k] == if k < i then Drawn(stream, old(pos) + 5 * k) else old(nodes[k])
      {
        ghost var here := pos;
        var status := Draw();
        nodes[i] := nodes[i].(up := status >= 973);
        DrawCosts(i);
        assert nodes[i].cost == Drawn(stream, here).cost;
        i := i + 1;
      }
    }

    /** The second loop: how many nodes of the first level are down. */
    method CountDown() returns (downCount: nat)
      requires Valid()
      ensures downCount == NODES <==> AllDown(nodes[..], 0, NODES)
    {
      downCount := 0;
      var i := 0;
      while i < NODES
        invariant 0 <= i <= NODES && downCount <= i
        invariant downCount == i <==> AllDown(nodes[..], 0, i)
      {
        downCount := downCount + if nodes[i].up then 0 else 1;
        i := i + 1;
      }
    }

    /** random_status_all: some node of the first level is up afterwards. */
    method RandomStatusAll()
      requires Valid() && Wired(nodes[..]) && nodes[RECEIVER].up
      modifies nodes, this`pos
      ensures Valid() && Ready(nodes[..])
      ensures (nodes[..], pos) == Redrawn(old(nodes[..]), stream, old(pos))
    {
      hide Drawn;
      DrawNodes();
      ghost var drawn := nodes[..];
      var downCount := CountDown();
      if downCount == NODES {
        var lucky := Draw();
        nodes[lucky % NODES] := nodes[lucky % NODES].(up := true);
      }
      ghost var k :| 0 <= k < NODES && nodes[k].up;
      ghost var raised, here := nodes[..], pos;
      DrawCosts(SENDER);
      assert nodes[..] == raised[SENDER := raised[SENDER].(cost := CostsDrawn(stream, here))];
      assert nodes[..][k].up;
    }

    /** The rows of the experiment: a proper route from a ready network, its nodes at the
        front of the path and nothing behind them, and its cost. */
    ghost predicate Reported(path: seq<U64>, cost: U64, route: seq<Stop>)
    {
      && Route(route, stream) && Ready(route[0].net) && cost == Wrap(Cost(route))
      && |route| <= |path| == PATH_SIZE
      && (forall k :: 0 <= k < PATH_SIZE ==> path[k] == if k < |route| then route[k].node else INFINITY)
      && (if route[|route| - 1].node == RECEIVER then |route| == 5 + Waits(route)
          else |route| == PATH_SIZE && Waits(route) > 49)
    }

    /** One run of the experiment. */
    method OneRun(path: array<U64>) returns (cost: U64, ghost route: seq<Stop>)
      requires Valid() && Ready(nodes[..]) && path.Length == PATH_SIZE && path as object != nodes
      modifies nodes, this`pos, path
      ensures Valid() && Ready(nodes[..]) && Reported(path[..], cost, route)
      ensures route[0].net == old(nodes[..]) && route[0].pos == old(pos)
      ensures var last := route[|route| - 1]; |last.net| == SIZE && (nodes[..], pos) == Redrawn(last.net, stream, last.pos)
    {
      hide Route, Cost, Wrap, Waits;
      for j := 0 to PATH_SIZE
        invariant forall k :: 0 <= k < j ==> path[k] == INFINITY
        invariant Ready(nodes[..]) && nodes[..] == old(nodes[..]) && pos == old(pos)
      {
        path[j] := INFINITY;
      }
      ghost var up :| 0 <= up < NODES && nodes[..][up].up;
      assert !AllDown(nodes[..], 0, NODES);
      var arrived, length;
      arrived, cost, length, route := GreedyPath(path);
      SoundAt(route, length - 1);
      RandomStatusAll();
    }

    /** Where each run of an experiment starts: the first in the initial network, the next in
        what is redrawn from where the one before has ended. */
    ghost predicate Chained(routes: seq<seq<Stop>>, start: nat)
    {
      forall i :: 0 <= i < |routes| ==>
        && routes[i] != [] && |routes[i][|routes[i]| - 1].net| == SIZE
        && (routes[i][0].net, routes[i][0].pos) == Before(routes[..i], start)
    }

    /** The network and the random stream before the next run. */
    ghost function Before(routes: seq<seq<Stop>>, start: nat): (seq<Node>, nat)
    {
      if routes == [] then (InitialNetwork(stream, start), start + NODES * (RECEIVER + 1))
      else
        var route := routes[|routes| - 1];
        if route == [] || |route[|route| - 1].net| != SIZE then ([], 0)
        else Redrawn(route[|route| - 1].net, stream, route[|route| - 1].pos)
    }

    lemma NothingChained(start: nat)
      ensures Chained([], start)
    {
    }

    lemma ReportedNotEmpty(path: seq<U64>, cost: U64, route: seq<Stop>)
      requires Reported(path, cost, route)
      ensures route != []
    {
    }

    lemma ChainExtends(routes: seq<seq<Stop>>, route: seq<Stop>, start: nat)
      requires Chained(routes, start) && route != [] && |route[|route| - 1].net| == SIZE
      requires (route[0].net, route[0].pos) == Before(routes, start)
      ensures Chained(routes + [route], start)
      ensures Before(routes + [route], start) == Redrawn(route[|route| - 1].net, stream, route[|route| - 1].pos)
    {
      hide Redrawn, InitialNetwork;
      assert (routes + [route])[..|routes|] == routes;
      forall i | 0 <= i < |routes| ensures (routes + [route])[..i] == routes[..i] {
      }
    }

    /** The experiment: costs and paths of any number of runs. */
    method Experiment(runs: nat, path: array<U64>)
        returns (costs: seq<U64>, paths: seq<seq<U64>>, ghost routes: seq<seq<Stop>>)
      requires Valid() && (forall k :: 0 <= k < SIZE ==> |nodes[k].cost| == NODES)
      requires path.Length == PATH_SIZE && path as object != nodes
      modifies nodes, this`pos, path
      ensures Valid() && Ready(nodes[..])
      ensures |costs| == |paths| == |routes| == runs
      ensures forall i :: 0 <= i < runs ==> Reported(paths[i], costs[i], routes[i])
      ensures Chained(routes, old(pos))
    {
      hide Reported, Ready, Chained, Redrawn;
      ghost var start := pos;
      NothingChained(start);
      Init();
      costs, paths, routes := [], [], [];
      for i := 0 to runs
        invariant Valid() && Ready(nodes[..]) && |costs| == |paths| == |routes| == i
        invariant forall k :: 0 <= k < i ==> Reported(paths[k], costs[k], routes[k])
        invariant Chained(routes, start) && (nodes[..], pos) == Before(routes, start)
      {
        var cost;
        ghost var route;
        cost, route := OneRun(path);
        ReportedNotEmpty(path[..], cost, route);
        ChainExtends(routes, route, start);
        costs, paths, routes := costs + [cost], paths + [path[..]], routes + [route];
      }
    }
  }
}
