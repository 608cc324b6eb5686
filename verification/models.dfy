/**
 The plain-data shapes of the automaton editor: points, states, transition
 labels and whole automata. None of them carries behaviour of its own; the
 label editing lives in the `Transitions` module. `Option` and `Automata`
 are not used by any operation; they are kept only to show the data layout
 that transitions belong to.
 */
module Models {

  /** A canvas point. The editor's coordinates are floating-point numbers;
      here they are reals that nothing in the model computes with. */
  datatype Point = Point(x: real, y: real)

  /** An automaton state: a display name, the accepting flag and the
      presentational centre, radius and colour. */
  datatype State = State(name: string, isFinal: bool, center: Point, radius: real, color: string)

  /** The label of a transition: its list of symbol strings, in insertion
      order and possibly with repeats, and where the label is drawn. */
  datatype Symbol = Symbol(values: seq<string>, position: Point)

  /** A directed edge between two states carrying a label. */
  datatype Transition = Transition(from: State, to: State, symbol: Symbol)

  /** A reference that may be absent (`null` in the editor). */
  datatype Option<T> = None | Some(value: T)

  /** A named automaton: its states, its transitions and an optional
      initial state. */
  datatype Automata = Automata(name: string, states: seq<State>, transitions: seq<Transition>, initial: Option<State>)
}
