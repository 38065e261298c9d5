/** `reducer(currentState, action)` of the untyped front end: the action carries its data in a
    `payload` object whose properties may be `undefined`. */
module ReducerJs {
  import opened Outcomes
  import opened GraphTypes
  import Reducer

  /** A JavaScript value that may be `undefined`. */
  datatype Js<T> = Undefined | Defined(value: T)

  datatype Payload = Payload(
    graph: Js<Graph>,
    bookId: Js<string>,
    node: Js<Option<ViewNode>>,
    transform: Js<Transform>,
    theme: Js<Theme>,
    dimensions: Js<Dimensions>)

  datatype JsAction = JsAction(kind: string, payload: Js<Payload>)

  /** The object the reducer returns: a property set to `undefined` is still present. */
  datatype JsPartial = JsPartial(
    uiPhase: Option<UIPhase>,
    graph: Option<Js<Graph>>,
    expandedBooks: Option<set<Js<string>>>,
    hoveredNode: Option<Js<Option<ViewNode>>>,
    transform: Option<Js<Transform>>,
    theme: Option<Js<Theme>>,
    dimensions: Option<Js<Dimensions>>)

  const Empty := JsPartial(None, None, None, None, None, None, None)

  /** The `ActionTypes` values, one string per action type. */
  const KnownTypes: set<string> :=
    {"LOAD_GRAPH_START", "LOAD_GRAPH_SUCCESS", "TOGGLE_BOOK", "SET_HOVERED_NODE", "SET_TRANSFORM", "SET_THEME", "RESIZE"}

  /** The expanded set as the JavaScript `Set` copy sees it. */
  function Lift(expanded: set<string>): set<Js<string>> {
    set b | b in expanded :: Defined(b)
  }

  /** The reducer; reading a property of a missing payload is a `TypeError`. */
  function ReduceJs(state: CoreState, action: JsAction): Result<JsPartial> {
    if action.kind == "LOAD_GRAPH_START" then Ok(Empty.(uiPhase := Some(Loading)))
    else if action.kind !in KnownTypes then Ok(Empty)
    else if action.payload.Undefined? then Err(TypeError("payload"))
    else
      var p := action.payload.value;
      if action.kind == "LOAD_GRAPH_SUCCESS" then
        Ok(Empty.(graph := Some(p.graph), expandedBooks := Some({}), uiPhase := Some(Ready)))
      else if action.kind == "TOGGLE_BOOK" then
        Ok(Empty.(expandedBooks := Some(Reducer.Toggled(Lift(state.expandedBooks), p.bookId))))
      else if action.kind == "SET_HOVERED_NODE" then Ok(Empty.(hoveredNode := Some(p.node)))
      else if action.kind == "SET_TRANSFORM" then Ok(Empty.(transform := Some(p.transform)))
      else if action.kind == "SET_THEME" then Ok(Empty.(theme := Some(p.theme)))
      else Ok(Empty.(dimensions := Some(p.dimensions)))
  }

  /** The payload-style encoding of a typed action; `RESIZE` carries its size as one `dimensions` object. */
  function Encode(a: Action): JsAction {
    var none := Payload(Undefined, Undefined, Undefined, Undefined, Undefined, Undefined);
    match a
    case LoadGraphStart => JsAction("LOAD_GRAPH_START", Undefined)
    case LoadGraphSuccess(g) => JsAction("LOAD_GRAPH_SUCCESS", Defined(none.(graph := Defined(g))))
    case ToggleBook(b) => JsAction("TOGGLE_BOOK", Defined(none.(bookId := Defined(b))))
    case SetHoveredNode(n) => JsAction("SET_HOVERED_NODE", Defined(none.(node := Defined(n))))
    case SetTransform(t) => JsAction("SET_TRANSFORM", Defined(none.(transform := Defined(t))))
    case SetTheme(t) => JsAction("SET_THEME", Defined(none.(theme := Defined(t))))
    case Resize(w, h) => JsAction("RESIZE", Defined(none.(dimensions := Defined(Dimensions(w, h)))))
    case Unknown(kind) => JsAction(kind, Undefined)
  }

  /** A typed partial state as the untyped reducer would write it. */
  function LiftPartial(p: PartialState): JsPartial {
    JsPartial(
      p.uiPhase,
      if p.graph.Some? && p.graph.value.Some? then Some(Defined(p.graph.value.value)) else None,
      if p.expandedBooks.Some? then Some(Lift(p.expandedBooks.value)) else None,
      if p.hoveredNode.Some? then Some(Defined(p.hoveredNode.value)) else None,
      if p.transform.Some? then Some(Defined(p.transform.value)) else None,
      if p.theme.Some? then Some(Defined(p.theme.value)) else None,
      if p.dimensions.Some? then Some(Defined(p.dimensions.value)) else None)
  }

  /** The two reducers agree on every well-formed action: the untyped one never fails on an encoded
      action and writes the same fields with the same values. */
  lemma {:induction false} ReducersAgree(state: CoreState, a: Action)
    requires a.Unknown? ==> a.kind !in KnownTypes
    ensures ReduceJs(state, Encode(a)) == Ok(LiftPartial(Reducer.Reduce(state, a)))
  {
    match a
    case LoadGraphStart =>
    case LoadGraphSuccess(_) =>
      assert Lift({}) == {};
    case SetHoveredNode(_) =>
    case SetTransform(_) =>
    case SetTheme(_) =>
    case Resize(_, _) =>
    case Unknown(_) =>
    case ToggleBook(b) =>
      var expanded := state.expandedBooks;
      assert Reducer.Toggled(Lift(expanded), Defined(b)) == Lift(Reducer.Toggled(expanded, b)) by {
        forall x ensures x in Reducer.Toggled(Lift(expanded), Defined(b)) <==> x in Lift(Reducer.Toggled(expanded, b)) {
          if x.Defined? {
            assert x in Lift(expanded) <==> x.value in expanded;
            assert x in Lift(Reducer.Toggled(expanded, b)) <==> x.value in Reducer.Toggled(expanded, b);
          }
        }
      }
  }

  /** Only `LOAD_GRAPH_START` and unknown types tolerate a missing payload; every other known type raises. */
  lemma MissingPayload(state: CoreState, kind: string)
    ensures ReduceJs(state, JsAction(kind, Undefined)).Err? <==> kind in KnownTypes && kind != "LOAD_GRAPH_START"
  {
  }

  /** `RESIZE` copies the payload's `dimensions` as given, `undefined` included. */
  lemma ResizeCopiesDimensions(state: CoreState, p: Payload)
    ensures ReduceJs(state, JsAction("RESIZE", Defined(p))) == Ok(Empty.(dimensions := Some(p.dimensions)))
  {
  }
}
