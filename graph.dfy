/** The computational graph of compgraph/graph.py: nodes that read a named source or apply an
    operation to the streams of their parents, the builders that extend a graph by one node,
    and `run`, which evaluates a node's parents in order and then its operation. */
module Graphs {
  import opened Rows
  import MapOps
  import ReduceOps
  import SortOps
  import JoinOps

  /** The keyword arguments of `run`: for each source name, the rows its callable yields. */
  type Sources = map<string, seq<Row>>

  /** The operation of a node. */
  datatype Operation =
    | ReadIterFactory(name: string)
    | MapOp(mapper: MapOps.Mapper)
    | ReduceOp(reducer: ReduceOps.Reducer, keys: seq<string>)
    | ExternalSort(keys: seq<string>)
    | JoinOp(join: JoinOps.Join)

  /** How many parents each operation gets from the builders: none for a source, two for a
      join, one otherwise. */
  predicate Shape(op: Operation, parents: Option<seq<Graph>>)
  {
    match op
    case ReadIterFactory(_) => parents.None?
    case JoinOp(_) => parents.Some? && |parents.value| == 2
    case _ => parents.Some? && |parents.value| == 1
  }

  /** ReadIterFactory.__call__: the rows of the named source; a name missing from the keyword
      arguments raises a KeyError. */
  function ReadSource(name: string, sources: Sources): (r: Result<seq<Row>>)
    ensures r.Ok? <==> name in sources
    ensures r.Ok? ==> r.value == sources[name]
    ensures r.Err? ==> r.error == KeyError(name)
  {
    if name in sources then Ok(sources[name]) else Err(KeyError(name))
  }

  /** The Join an operation holds, if it is one. */
  function OwnJoin(op: Operation): set<JoinOps.Join>
  {
    if op.JoinOp? then {op.join} else {}
  }

  /** The listed nodes and their ancestors. */
  ghost function AncestorsOf(ps: seq<Graph>): set<Graph>
  {
    if ps == [] then {}
    else AncestorsOf(ps[..|ps| - 1]) + {ps[|ps| - 1]} + ps[|ps| - 1].Ancestors
  }

  /** The Joins of the listed nodes and their ancestors. */
  ghost function JoinsOf(ps: seq<Graph>): set<JoinOps.Join>
  {
    if ps == [] then {}
    else JoinsOf(ps[..|ps| - 1]) + ps[|ps| - 1].Joins
  }

  /** Each listed node, its ancestors and its Joins are among those of the list. */
  lemma {:induction false} ListedCovered(ps: seq<Graph>, i: nat)
    requires i < |ps|
    ensures ps[i] in AncestorsOf(ps) && ps[i].Ancestors <= AncestorsOf(ps) && ps[i].Joins <= JoinsOf(ps)
  {
    if i < |ps| - 1 {
      ListedCovered(ps[..|ps| - 1], i);
    }
  }

  /** The listed node through which a node of AncestorsOf(ps) is reached. */
  ghost function AncestorOrigin(ps: seq<Graph>, n: Graph): (k: nat)
    requires n in AncestorsOf(ps)
    ensures k < |ps| && (n == ps[k] || n in ps[k].Ancestors)
  {
    if n == ps[|ps| - 1] || n in ps[|ps| - 1].Ancestors then |ps| - 1
    else AncestorOrigin(ps[..|ps| - 1], n)
  }

  /** The streams of the listed nodes, in list order. */
  ghost function Evals(ps: seq<Graph>, sources: Sources): seq<Result<seq<Row>>>
    requires forall p :: p in ps ==> p.Valid()
  {
    if ps == [] then [] else Evals(ps[..|ps| - 1], sources) + [ps[|ps| - 1].Eval(sources)]
  }

  /** Evals has one stream per node, each the node's own. */
  lemma {:induction false} EvalsAt(ps: seq<Graph>, sources: Sources)
    requires forall p :: p in ps ==> p.Valid()
    ensures |Evals(ps, sources)| == |ps|
    ensures forall k :: 0 <= k < |ps| ==> Evals(ps, sources)[k] == ps[k].Eval(sources)
  {
    if ps != [] {
      EvalsAt(ps[..|ps| - 1], sources);
    }
  }

  /** A one-input operation applied to its stream. */
  function Apply(op: Operation, rows: seq<Row>): Result<seq<Row>>
    requires op.MapOp? || op.ReduceOp? || op.ExternalSort?
  {
    match op
    case MapOp(mapper) => MapOps.MapRows(mapper, rows)
    case ReduceOp(reducer, keys) => ReduceOps.ReduceRows(reducer, keys, rows)
    case ExternalSort(keys) => SortOps.SortRows(rows, keys)
  }

  /** The same, running the operations that loop as methods. */
  method ApplyCall(op: Operation, rows: seq<Row>) returns (out: Result<seq<Row>>)
    requires op.MapOp? || op.ReduceOp? || op.ExternalSort?
    ensures out == Apply(op, rows)
  {
    match op {
      case MapOp(mapper) =>
        out := MapOps.MapCall(mapper, rows);
      case ReduceOp(reducer, keys) =>
        out := ReduceOps.ReduceCall(reducer, keys, rows);
      case ExternalSort(keys) =>
        out := SortOps.SortRows(rows, keys);
    }
  }

  /** A node of the graph. Its operation and parents are fixed by the builder that made it;
      `run` records its keyword arguments in `input`. */
  class Graph {
    const operation: Operation
    const parents: Option<seq<Graph>>
    var input: Option<Sources>
    /** Every node this one reads from, directly or not. */
    ghost const Ancestors: set<Graph>
    /** The Join operations of this node and of its ancestors. */
    ghost const Joins: set<JoinOps.Join>

    /** The node and its ancestors form a graph without cycles, every node has the number of
        parents its operation takes, and the ghost sets are exactly what the parents bring. */
    ghost predicate Valid()
      decreases Ancestors
    {
      && Shape(operation, parents)
      && this !in Ancestors
      && (match parents
          case None => Ancestors == {} && Joins == {}
          case Some(ps) =>
            && (forall p :: p in ps ==> p.Ancestors < Ancestors && p.Valid())
            && Ancestors == AncestorsOf(ps)
            && Joins == OwnJoin(operation) + JoinsOf(ps))
    }

    /** The stream the node yields for the given sources: a source node reads its source; any
        other node evaluates its parents in order and applies its operation to their streams
        (a join gets the first parent's stream as its rows and the second as its argument). */
    function Eval(sources: Sources): Result<seq<Row>>
      requires Valid()
      decreases Ancestors
    {
      match parents
      case None => ReadSource(operation.name, sources)
      case Some(ps) =>
        var first :- ps[0].Eval(sources);
        if operation.JoinOp? then
          var second :- ps[1].Eval(sources);
          JoinOps.JoinRows(operation.join.joiner, operation.join.keys, first, second)
        else
          Apply(operation, first)
    }

    /** A stream only comes out when every source node of the graph names a source among the
        keyword arguments: one missing name makes the run fail. */
    lemma ReadsNeedSources(sources: Sources)
      requires Valid()
      decreases Ancestors
      ensures Eval(sources).Ok? ==>
                forall n :: (n == this || n in Ancestors) && n.operation.ReadIterFactory? ==>
                  n.operation.name in sources
    {
      if Eval(sources).Ok? {
        match parents
        case None =>
        case Some(ps) =>
          forall n | n in Ancestors && n.operation.ReadIterFactory?
            ensures n.operation.name in sources
          {
            var k := AncestorOrigin(ps, n);
            ParentStreamOk(ps, k, sources);
            ps[k].ReadsNeedSources(sources);
          }
      }
    }

    /** A node whose stream comes out had a stream from each of its parents. */
    lemma ParentStreamOk(ps: seq<Graph>, k: nat, sources: Sources)
      requires Valid() && parents == Some(ps) && k < |ps|
      requires Eval(sources).Ok?
      ensures ps[k].Valid() && ps[k].Eval(sources).Ok?
    {
      assert ps[0].Eval(sources).Ok?;
      if k == 1 {
        assert operation.JoinOp?;
      }
    }

    /** Graph() followed by graph_from_iter's assignment. */
    constructor Leaf(name: string)
      ensures operation == ReadIterFactory(name) && parents == None && input == None
      ensures Valid() && Ancestors == {} && Joins == {}
    {
      operation := ReadIterFactory(name);
      parents := None;
      input := None;
      Ancestors := {};
      Joins := {};
    }

    /** Graph() followed by the assignments of map, reduce and sort. */
    constructor Extend(op: Operation, parent: Graph)
      requires op.MapOp? || op.ReduceOp? || op.ExternalSort?
      requires parent.Valid()
      ensures operation == op && parents == Some([parent]) && input == None
      ensures Valid() && Ancestors == parent.Ancestors + {parent} && Joins == parent.Joins
    {
      operation := op;
      parents := Some([parent]);
      input := None;
      Ancestors := parent.Ancestors + {parent};
      Joins := parent.Joins;
      new;
      assert [parent][..0] == [];
    }

    /** Graph() followed by join's assignments. */
    constructor Joined(join: JoinOps.Join, left: Graph, right: Graph)
      requires left.Valid() && right.Valid()
      ensures operation == JoinOp(join) && parents == Some([left, right]) && input == None
      ensures Valid()
      ensures Ancestors == left.Ancestors + right.Ancestors + {left, right}
      ensures Joins == left.Joins + right.Joins + {join}
    {
      operation := JoinOp(join);
      parents := Some([left, right]);
      input := None;
      Ancestors := left.Ancestors + right.Ancestors + {left, right};
      Joins := left.Joins + right.Joins + {join};
      new;
      assert [left, right][..1] == [left] && [left][..0] == [];
      assert AncestorsOf([left]) == {left} + left.Ancestors;
      assert AncestorsOf([left, right]) == AncestorsOf([left]) + {right} + right.Ancestors;
      assert JoinsOf([left]) == left.Joins;
      assert JoinsOf([left, right]) == JoinsOf([left]) + right.Joins;
    }

    /** graph_from_iter: a new node without parents that reads the named source. */
    static method GraphFromIter(name: string) returns (g: Graph)
      ensures fresh(g) && g.Valid()
      ensures g.operation == ReadIterFactory(name) && g.parents == None && g.input == None
      ensures forall sources :: g.Eval(sources) == ReadSource(name, sources)
    {
      g := new Graph.Leaf(name);
    }

    /** map: a new node applying the mapper to this node's stream. */
    method Map(mapper: MapOps.Mapper) returns (g: Graph)
      requires Valid()
      ensures fresh(g) && g.Valid()
      ensures g.operation == MapOp(mapper) && g.parents == Some([this]) && g.input == None
    {
      g := new Graph.Extend(MapOp(mapper), this);
    }

    /** reduce: a new node reducing this node's stream by the key names. */
    method Reduce(reducer: ReduceOps.Reducer, keys: seq<string>) returns (g: Graph)
      requires Valid()
      ensures fresh(g) && g.Valid()
      ensures g.operation == ReduceOp(reducer, keys) && g.parents == Some([this]) && g.input == None
    {
      g := new Graph.Extend(ReduceOp(reducer, keys), this);
    }

    /** sort: a new node sorting this node's stream by the key names. */
    method Sort(keys: seq<string>) returns (g: Graph)
      requires Valid()
      ensures fresh(g) && g.Valid()
      ensures g.operation == ExternalSort(keys) && g.parents == Some([this]) && g.input == None
    {
      g := new Graph.Extend(ExternalSort(keys), this);
    }

    /** join: a new node with a new Join operation whose parents are this node, then the other
        graph: this node's stream is the join's left input. */
    method Join(joiner: JoinOps.Joiner, joinGraph: Graph, keys: seq<string>) returns (g: Graph)
      requires Valid() && joinGraph.Valid()
      ensures fresh(g) && g.Valid()
      ensures g.operation.JoinOp? && fresh(g.operation.join)
      ensures g.operation.join.joiner == joiner && g.operation.join.keys == keys
      ensures g.operation.join.joinIter == []
      ensures g.parents == Some([this, joinGraph]) && g.input == None
    {
      var join := new JoinOps.Join(joiner, keys);
      g := new Graph.Joined(join, this, joinGraph);
    }

    /** run: records the sources in `input`, runs every parent with the same sources in
        parent order, then applies the operation to their streams. Every node it reaches
        records the sources, and after a run that succeeds every Join has drained its
        second input. */
    method Run(sources: Sources) returns (out: Result<seq<Row>>)
      requires Valid()
      modifies this, Ancestors, Joins
      decreases Ancestors, 1
      ensures out == Eval(sources)
      ensures input == Some(sources)
      ensures forall n :: n in Ancestors ==> n.input == Some(sources)
      ensures out.Ok? ==> forall j :: j in Joins ==> j.joinIter == []
    {
      input := Some(sources);
      match parents {
        case None =>
          out := ReadSource(operation.name, sources);
        case Some(ps) =>
          var streams := RunParents(ps, sources);
          EvalsAt(ps, sources);
          if streams[0].Err? {
            out := Err(streams[0].error);
          } else if operation.JoinOp? {
            if streams[1].Err? {
              out := Err(streams[1].error);
            } else {
              assert streams == [streams[0], streams[1]];
              out := operation.join.Call(streams[0].value, [streams[1].value]);
            }
          } else {
            assert streams == [streams[0]];
            out := ApplyCall(operation, streams[0].value);
          }
      }
    }

    /** Running a graph a second time on equal fresh sources gives the same stream: what the
        first run leaves behind (the recorded inputs, the drained joins) does not change what
        the second computes. Sources are row values here, so each run reads fresh rows; the
        in-place writes of Apply and Product to a caller's shared dicts are not modelled. */
    method RunTwice(sources: Sources) returns (first: Result<seq<Row>>, second: Result<seq<Row>>)
      requires Valid()
      modifies this, Ancestors, Joins
      ensures first == second == Eval(sources)
      ensures forall n :: n in Ancestors ==> n.input == Some(sources)
    {
      first := Run(sources);
      second := Run(sources);
    }

    /** The list comprehension of run: every parent runs with the same sources, in order. */
    method RunParents(ps: seq<Graph>, sources: Sources) returns (streams: seq<Result<seq<Row>>>)
      requires Valid() && parents == Some(ps)
      modifies Ancestors, Joins
      decreases Ancestors, 0
      ensures streams == Evals(ps, sources)
      ensures forall n :: n in AncestorsOf(ps) ==> n.input == Some(sources)
      ensures (forall r :: r in streams ==> r.Ok?) ==>
                forall j :: j in JoinsOf(ps) ==> j.joinIter == []
    {
      streams := [];
      ghost var seen: set<Graph> := {};
      ghost var drained: set<JoinOps.Join> := {};
      ghost var allOk := true;
      for i := 0 to |ps|
        invariant streams == Evals(ps[..i], sources)
        invariant forall n :: n in seen ==> n.input == Some(sources)
        invariant AncestorsOf(ps[..i]) <= seen
        invariant allOk <==> forall r :: r in streams ==> r.Ok?
        invariant allOk ==> forall j :: j in drained ==> j.joinIter == []
        invariant JoinsOf(ps[..i]) <= drained
      {
        assert ps[..i + 1][..i] == ps[..i];
        ListedCovered(ps, i);
        var s := ps[i].Run(sources);
        streams := streams + [s];
        seen := seen + {ps[i]} + ps[i].Ancestors;
        drained := drained + ps[i].Joins;
        allOk := allOk && s.Ok?;
      }
      assert ps[..|ps|] == ps;
    }
  }
}
