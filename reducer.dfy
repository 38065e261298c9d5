/** `reducer(state, action)` of the typed front end: the partial state an action produces. */
module Reducer {
  import opened Outcomes
  import opened GraphTypes

  /** `TOGGLE_BOOK` on a copy of the expanded set: remove the book if present, add it otherwise. Both
      reducers use it, the untyped one over possibly-`undefined` ids. */
  function Toggled<T(==, !new)>(expanded: set<T>, bookId: T): (r: set<T>)
    ensures forall b :: b in r <==> (b in expanded) != (b == bookId)
  {
    if bookId in expanded then expanded - {bookId} else expanded + {bookId}
  }

  /** Toggling the same id twice gives back the set. */
  lemma {:induction false} ToggledTwice<T(!new)>(expanded: set<T>, bookId: T)
    ensures Toggled(Toggled(expanded, bookId), bookId) == expanded
  {
    var once := Toggled(expanded, bookId);
    forall x ensures x in Toggled(once, bookId) <==> x in expanded {
      assert x in once <==> (x in expanded) != (x == bookId);
    }
  }

  function Reduce(state: CoreState, action: Action): PartialState {
    match action
    case LoadGraphStart => NoChange.(uiPhase := Some(Loading))
    case LoadGraphSuccess(graph) =>
      NoChange.(graph := Some(Some(graph)), expandedBooks := Some({}), uiPhase := Some(Ready))
    case ToggleBook(bookId) => NoChange.(expandedBooks := Some(Toggled(state.expandedBooks, bookId)))
    case SetHoveredNode(node) => NoChange.(hoveredNode := Some(node))
    case SetTransform(transform) => NoChange.(transform := Some(transform))
    case SetTheme(theme) => NoChange.(theme := Some(theme))
    case Resize(width, height) => NoChange.(dimensions := Some(Dimensions(width, height)))
    case Unknown(_) => NoChange
  }

  /** The fields each action's result carries: exactly one for the setters, three for a successful
      load, none for an unknown action. */
  lemma ReduceFields(state: CoreState, action: Action)
    ensures FieldsOf(Reduce(state, action)) ==
      match action
      case LoadGraphStart => {"uiPhase"}
      case LoadGraphSuccess(_) => {"graph", "expandedBooks", "uiPhase"}
      case ToggleBook(_) => {"expandedBooks"}
      case SetHoveredNode(_) => {"hoveredNode"}
      case SetTransform(_) => {"transform"}
      case SetTheme(_) => {"theme"}
      case Resize(_, _) => {"dimensions"}
      case Unknown(_) => {}
  {
  }

  /** Applied to the state, each action changes its own fields and leaves every other field as it was. */
  lemma ReduceEffect(state: CoreState, action: Action)
    ensures var next := Merge(state, Reduce(state, action));
      match action
      case LoadGraphStart => next == state.(uiPhase := Loading)
      case LoadGraphSuccess(g) => next == state.(graph := Some(g), expandedBooks := {}, uiPhase := Ready)
      case ToggleBook(b) =>
        next == state.(expandedBooks := next.expandedBooks) &&
        (forall x :: x in next.expandedBooks <==> (x in state.expandedBooks) != (x == b))
      case SetHoveredNode(n) => next == state.(hoveredNode := n)
      case SetTransform(t) => next == state.(transform := t)
      case SetTheme(t) => next == state.(theme := t)
      case Resize(w, h) => next == state.(dimensions := Dimensions(w, h))
      case Unknown(_) => next == state
  {
  }

  /** Toggling a book twice restores the expanded set; the state passed in is a value and never changes. */
  lemma {:induction false} ToggleTwiceRestores(state: CoreState, bookId: string)
    ensures var once := Merge(state, Reduce(state, ToggleBook(bookId)));
      Merge(once, Reduce(once, ToggleBook(bookId))) == state
  {
    ToggledTwice(state.expandedBooks, bookId);
  }
}
