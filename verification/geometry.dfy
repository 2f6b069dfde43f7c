/**
 * Points, circuits and the placeholder layout of the connectgrid crate root.
 *
 * Coordinates are unbounded integers: the crate uses `i32`, and its
 * overflow is not modelled.
 */
module Geometry {

  datatype Option<T> = None | Some(value: T)

  /** A grid cell `(x, y)`. */
  type Point = (int, int)

  /** A finished or partial wire: the cells it visits, in order. */
  type Route = seq<Point>

  /** A component: its terminal offsets (local to the component) and its size. */
  datatype Component = Component(terminals: seq<Point>, size: (int, int))

  /** A reference to terminal `terminal` of component `component`. */
  datatype TerminalRef = TerminalRef(component: nat, terminal: nat)

  /** A wire to be routed from one terminal to another. */
  datatype Connection = Connection(src: TerminalRef, dst: TerminalRef)

  /** Components, connections and the nominal board size. */
  datatype Circuit = Circuit(components: seq<Component>, connections: seq<Connection>, size: (int, int))

  /** Component-wise addition; the offset from `p` to the result is exactly `d`. */
  function PointAdd(p: Point, d: Point): (r: Point)
    ensures r.0 - p.0 == d.0 && r.1 - p.1 == d.1
  {
    (p.0 + d.0, p.1 + d.1)
  }

  /** The fixed placements the placeholder layout assigns, one per component. */
  const FixedPlacements: seq<Point> := [(5, 5), (12, 11), (22, 21), (22, 8)]

  /** A terminal reference that names an existing component, placement and terminal. */
  predicate ValidRef(components: seq<Component>, placements: seq<Point>, t: TerminalRef)
  {
    t.component < |components| && t.component < |placements| &&
    t.terminal < |components[t.component].terminals|
  }

  /** Every connection of `connections` refers to existing terminals. */
  predicate ValidConnections(components: seq<Component>, placements: seq<Point>, connections: seq<Connection>)
  {
    forall i :: 0 <= i < |connections| ==>
      ValidRef(components, placements, connections[i].src) &&
      ValidRef(components, placements, connections[i].dst)
  }

  /** The absolute grid cell of a terminal: its local offset moved by its component's placement. */
  function Terminal(components: seq<Component>, placements: seq<Point>, t: TerminalRef): Point
    requires ValidRef(components, placements, t)
  {
    PointAdd(components[t.component].terminals[t.terminal], placements[t.component])
  }

  /**
   * The placeholder layout: it places the components at four fixed spots,
   * whatever the circuit, and connects each pair of terminals by a
   * two-point route. It never fails. The board size is not consulted.
   */
  method Layout(circuit: Circuit) returns (r: Option<(seq<Point>, seq<Route>)>)
    requires ValidConnections(circuit.components, FixedPlacements, circuit.connections)
    ensures r.Some?
    ensures r.value.0 == [(5, 5), (12, 11), (22, 21), (22, 8)]
    ensures |r.value.1| == |circuit.connections|
    ensures forall i :: 0 <= i < |circuit.connections| ==>
              var c := circuit.connections[i];
              r.value.1[i] == [Terminal(circuit.components, FixedPlacements, c.src),
                               Terminal(circuit.components, FixedPlacements, c.dst)]
  {
    var placements := [(5, 5), (12, 11), (22, 21), (22, 8)];
    var routes: seq<Route> := [];
    for i := 0 to |circuit.connections|
      invariant |routes| == i
      invariant forall j :: 0 <= j < i ==>
                  routes[j] == [Terminal(circuit.components, placements, circuit.connections[j].src),
                                Terminal(circuit.components, placements, circuit.connections[j].dst)]
    {
      var c := circuit.connections[i];
      var (x, y) := circuit.components[c.src.component].terminals[c.src.terminal];
      var (ox, oy) := placements[c.src.component];
      var from := (x + ox, y + oy);
      var (x', y') := circuit.components[c.dst.component].terminals[c.dst.terminal];
      var (ox', oy') := placements[c.dst.component];
      var to := (x' + ox', y' + oy');
      routes := routes + [[from, to]];
    }
    r := Some((placements, routes));
  }
}
