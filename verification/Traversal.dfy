/** Traversals of internal/dsig/etreeutils/namespace.go, and the budget which all the contexts copied
    from one another share. */
module Traversal {
  import opened Wrappers
  import opened Xml
  import opened Etree

  /** The counter behind `NSContext.limit`. */
  class Limit {
    var left: int

    constructor ()
      ensures left == 1000
    {
      left := 1000;
    }

    /** `CheckLimit`. */
    method Take() returns (ok: bool)
      modifies this
      ensures ok == (old(left) > 0) && left == if ok then old(left) - 1 else old(left)
    {
      if left <= 0 {
        return false;
      }
      left := left - 1;
      ok := true;
    }
  }

  /** The number of elements in a tree. */
  function Count(n: Node): nat
    decreases n, 1
  {
    if n.Element? then 1 + CountAll(n.child) else 0
  }

  function CountAll(ns: seq<Node>): nat
    decreases ns, 0
  {
    if ns == [] then 0 else Count(ns[0]) + CountAll(ns[1..])
  }

  lemma {:induction false} CountSplit(ms: seq<Node>, ns: seq<Node>)
    ensures CountAll(ms + ns) == CountAll(ms) + CountAll(ns)
  {
    if ms == [] {
      assert [] + ns == ns;
    } else {
      assert (ms + ns)[0] == ms[0] && (ms + ns)[1..] == ms[1..] + ns;
      CountSplit(ms[1..], ns);
    }
  }

  lemma CountNext(ns: seq<Node>, k: nat)
    requires k < |ns|
    ensures CountAll(ns[..k + 1]) == CountAll(ns[..k]) + Count(ns[k])
    ensures CountAll(ns) == CountAll(ns[..k + 1]) + CountAll(ns[k + 1..])
  {
    assert ns[..k + 1] == ns[..k] + [ns[k]] && ns == ns[..k + 1] + ns[k + 1..];
    CountSplit(ns[..k], [ns[k]]);
    CountSplit(ns[..k + 1], ns[k + 1..]);
    assert [ns[k]][1..] == [];
  }

  /** `checkSubtreeLimit`: it succeeds if and only if the budget covers every element of the tree, and
      takes exactly that much; otherwise it uses up what there is. */
  method CheckSubtreeLimit(limit: Limit?, el: ElementNode) returns (ok: bool)
    requires el.Valid()
    modifies limit
    ensures limit == null ==> ok
    ensures limit != null ==> ok == (old(limit.left) >= Count(el.tree))
    ensures limit != null ==>
              limit.left == if ok then old(limit.left) - Count(el.tree) else if old(limit.left) < 0 then old(limit.left) else 0
    decreases el.repr
  {
    if limit == null {
      return true;
    }
    ok := limit.Take();
    ValidFields(el);
    if !ok {
      return;
    }
    ghost var trees := el.tree.child;
    ghost var footprint := el.repr - {el};
    assert Forest(el.child, footprint, trees) && |trees| == |el.child|;
    hide Forest, ElementNode.Valid;
    for k := 0 to |el.child|
      invariant old(limit.left) >= 1 + CountAll(trees[..k])
      invariant limit.left == old(limit.left) - 1 - CountAll(trees[..k])
    {
      CountNext(trees, k);
      ForestAt(el.child, footprint, trees, k);
      if el.child[k].Child? {
        ok := CheckSubtreeLimit(limit, el.child[k].el);
        if !ok {
          return;
        }
      }
    }
    assert trees[..|el.child|] == trees;
  }

  // ---------------------------------------------------------------- NSTraverse

  datatype Visit = Visit(ctx: Context, el: Node)

  datatype Stop = LimitReached | BadNamespace(cause: NsError) | Handler(answer: HandlerError)

  datatype HandlerError = Halted | Undeclared | SubtreeLimit

  /** A handler also sees the counter, and says what it leaves of it. */
  datatype Answer = Answer(error: Option<HandlerError>, left: int)

  type NsHandler = (Visit, int) -> Answer

  /** A handler that takes nothing from the budget. */
  function Keeping(handle: Visit -> Option<HandlerError>): NsHandler {
    (v: Visit, left: int) => Answer(handle(v), left)
  }

  /** What a traversal comes to, in document order: the elements with the context inside each, and a
      declaration that is not allowed in the place of an element that has one. */
  function Events(ctx: Context, n: Node): seq<Result<Visit, NsError>>
    decreases n, 1
  {
    if !n.Element? then []
    else
      var inner := SubContext(ctx, n.attrs);
      if inner.Err? then [Err(inner.error)] else [Ok(Visit(inner.value, n))] + EventsAll(inner.value, n.child)
  }

  function EventsAll(inner: Context, ns: seq<Node>): seq<Result<Visit, NsError>>
    decreases ns, 0
  {
    if ns == [] then [] else Events(inner, ns[0]) + EventsAll(inner, ns[1..])
  }

  datatype Outcome = Outcome(left: int, stop: Option<Stop>, visited: seq<Visit>)

  /** A straight scan of the events, one unit of the budget for each and what the handler takes, up to the
      first error. */
  function ScanWith(left: int, events: seq<Result<Visit, NsError>>, handle: NsHandler): Outcome
    decreases |events|
  {
    if events == [] then Outcome(left, None, [])
    else if left <= 0 then Outcome(left, Some(LimitReached), [])
    else
      match events[0]
      case Err(e) => Outcome(left - 1, Some(BadNamespace(e)), [])
      case Ok(v) =>
        var answer := handle(v, left - 1);
        if answer.error.Some? then Outcome(answer.left, Some(Handler(answer.error.value)), [v])
        else
          var rest := ScanWith(answer.left, events[1..], handle);
          Outcome(rest.left, rest.stop, [v] + rest.visited)
  }

  function Scan(left: int, events: seq<Result<Visit, NsError>>, handle: Visit -> Option<HandlerError>): Outcome {
    ScanWith(left, events, Keeping(handle))
  }

  lemma {:induction false} ScanConcat(left: int, s: seq<Result<Visit, NsError>>, t: seq<Result<Visit, NsError>>,
                                      handle: NsHandler)
    ensures var first := ScanWith(left, s, handle);
            ScanWith(left, s + t, handle) ==
              if first.stop.Some? then first
              else
                var second := ScanWith(first.left, t, handle);
                Outcome(second.left, second.stop, first.visited + second.visited)
    decreases |s|
  {
    if s == [] {
      assert [] + t == t;
    } else {
      assert (s + t)[0] == s[0] && (s + t)[1..] == s[1..] + t;
      if left > 0 && s[0].Ok? && handle(s[0].value, left - 1).error.None? {
        ScanConcat(handle(s[0].value, left - 1).left, s[1..], t, handle);
      }
    }
  }

  lemma {:induction false} EventsConcat(inner: Context, ms: seq<Node>, ns: seq<Node>)
    ensures EventsAll(inner, ms + ns) == EventsAll(inner, ms) + EventsAll(inner, ns)
  {
    if ms == [] {
      assert [] + ns == ns;
    } else {
      assert (ms + ns)[0] == ms[0] && (ms + ns)[1..] == ms[1..] + ns;
      EventsConcat(inner, ms[1..], ns);
    }
  }

  /** The events before, at and after one child. */
  lemma EventsAt(inner: Context, ns: seq<Node>, k: nat)
    requires k < |ns|
    ensures EventsAll(inner, ns) == EventsAll(inner, ns[..k + 1]) + EventsAll(inner, ns[k + 1..])
    ensures EventsAll(inner, ns[..k + 1]) == EventsAll(inner, ns[..k]) + Events(inner, ns[k])
  {
    assert ns[..k + 1] == ns[..k] + [ns[k]] && ns == ns[..k + 1] + ns[k + 1..];
    EventsConcat(inner, ns[..k + 1], ns[k + 1..]);
    EventsConcat(inner, ns[..k], [ns[k]]);
    assert [ns[k]][1..] == [];
  }

  /** `NSTraverse`: the recursion, with its early exits and the counter behind a pointer, is the scan.
      The elements that the handler was given are returned as well. */
  method NsTraverse(limit: Limit, ctx: Context, n: Node, handle: NsHandler)
    returns (stop: Option<Stop>, visited: seq<Visit>)
    requires n.Element?
    modifies limit
    ensures Outcome(limit.left, stop, visited) == ScanWith(old(limit.left), Events(ctx, n), handle)
    decreases n, 1
  {
    visited := [];
    var ok := limit.Take();
    if !ok {
      return Some(LimitReached), [];
    }
    var inner := SubContext(ctx, n.attrs);
    if inner.Err? {
      return Some(BadNamespace(inner.error)), [];
    }
    visited := [Visit(inner.value, n)];
    var answer := handle(Visit(inner.value, n), limit.left);
    limit.left := answer.left;
    if answer.error.Some? {
      return Some(Handler(answer.error.value)), visited;
    }
    var more;
    stop, more := TraverseChildren(limit, inner.value, n.child, handle);
    visited := visited + more;
    assert Events(ctx, n)[1..] == EventsAll(inner.value, n.child);
  }

  /** The loop over the children. */
  method TraverseChildren(limit: Limit, inner: Context, ns: seq<Node>, handle: NsHandler)
    returns (stop: Option<Stop>, visited: seq<Visit>)
    modifies limit
    ensures Outcome(limit.left, stop, visited) == ScanWith(old(limit.left), EventsAll(inner, ns), handle)
    decreases ns, 0
  {
    hide Events, ScanWith;
    visited := [];
    NothingToScanWith(limit.left, handle);
    assert EventsAll(inner, ns[..0]) == [];
    for k := 0 to |ns|
      invariant Outcome(limit.left, None, visited) == ScanWith(old(limit.left), EventsAll(inner, ns[..k]), handle)
    {
      ghost var events := EventsAll(inner, ns[..k]);
      EventsAt(inner, ns, k);
      ScanConcat(old(limit.left), events, Events(inner, ns[k]), handle);
      if ns[k].Element? {
        var more;
        stop, more := NsTraverse(limit, inner, ns[k], handle);
        visited := visited + more;
        if stop.Some? {
          ScanConcat(old(limit.left), EventsAll(inner, ns[..k + 1]), EventsAll(inner, ns[k + 1..]), handle);
          return;
        }
      } else {
        LeafHasNoEvents(inner, ns[k]);
        NothingToScanWith(limit.left, handle);
      }
    }
    assert ns[..|ns|] == ns;
    stop := None;
  }

  lemma NothingToScanWith(left: int, handle: NsHandler)
    ensures ScanWith(left, [], handle) == Outcome(left, None, [])
  {
  }

  lemma LeafHasNoEvents(inner: Context, n: Node)
    requires !n.Element?
    ensures Events(inner, n) == []
  {
  }

  // ---------------------------------------------------------------- what follows

  ghost predicate AllAllowed(n: Node)
    decreases n, 1
  {
    n.Element? ==> DeclsError(n.attrs).None? && AllAllowedBelow(n.child)
  }

  ghost predicate AllAllowedBelow(ns: seq<Node>)
    decreases ns, 0
  {
    ns != [] ==> AllAllowed(ns[0]) && AllAllowedBelow(ns[1..])
  }

  lemma {:induction false} OneEventEach(ctx: Context, n: Node)
    requires AllAllowed(n)
    ensures |Events(ctx, n)| == Count(n) && forall e :: e in Events(ctx, n) ==> e.Ok?
    decreases n, 1
  {
    if n.Element? {
      OneEventEachBelow(SubContext(ctx, n.attrs).value, n.child);
    }
  }

  lemma {:induction false} OneEventEachBelow(inner: Context, ns: seq<Node>)
    requires AllAllowedBelow(ns)
    ensures |EventsAll(inner, ns)| == CountAll(ns) && forall e :: e in EventsAll(inner, ns) ==> e.Ok?
    decreases ns, 0
  {
    if ns != [] {
      OneEventEach(inner, ns[0]);
      OneEventEachBelow(inner, ns[1..]);
    }
  }

  lemma {:induction false} ScanOfAllowed(left: int, events: seq<Result<Visit, NsError>>, handle: Visit -> Option<HandlerError>)
    requires left >= 0 && (forall e :: e in events ==> e.Ok? && handle(e.value).None?)
    ensures var r := Scan(left, events, handle);
            && (r.stop.None? <==> left >= |events|)
            && (r.stop.Some? ==> r.stop == Some(LimitReached))
            && r.left == (if left >= |events| then left - |events| else 0)
            && |r.visited| == (if left >= |events| then |events| else left)
            && forall i :: 0 <= i < |r.visited| ==> events[i] == Ok(r.visited[i])
  {
    if events != [] && left > 0 {
      assert events[0] in events;
      ScanOfAllowed(left - 1, events[1..], handle);
    }
  }

  /** A traversal whose handler never objects succeeds if and only if the budget covers the tree. It
      visits the elements in document order, all of them or as many as the budget has. */
  lemma TraversalBudget(left: int, ctx: Context, n: Node, handle: Visit -> Option<HandlerError>)
    requires left >= 0 && AllAllowed(n) && forall v :: handle(v).None?
    ensures var r := Scan(left, Events(ctx, n), handle);
            && (r.stop.None? <==> left >= Count(n))
            && r.left == (if left >= Count(n) then left - Count(n) else 0)
            && |r.visited| == (if left >= Count(n) then Count(n) else left)
            && |Events(ctx, n)| == Count(n)
            && forall i :: 0 <= i < |r.visited| ==> Events(ctx, n)[i] == Ok(r.visited[i])
  {
    OneEventEach(ctx, n);
    ScanOfAllowed(left, Events(ctx, n), handle);
  }

  /** The handler of `NSFindIterateCtx` for a search that halts at the first match. */
  function Seek(namespace: string, tag: Name): Visit -> Option<HandlerError> {
    (v: Visit) => SeekOne(namespace, tag, v)
  }

  function SeekOne(namespace: string, tag: Name, v: Visit): Option<HandlerError> {
    if !v.el.Element? || SubContext(v.ctx, v.el.attrs).Err? then None
    else
      var own := Lookup(SubContext(v.ctx, v.el.attrs).value, v.el.space);
      if own.None? then Some(Undeclared)
      else if own.value == namespace && v.el.tag == tag then Some(Halted)
      else None
  }

  /** The first event at which a search has to stop. */
  ghost predicate StopsFirstAt(events: seq<Result<Visit, NsError>>, handle: Visit -> Option<HandlerError>, k: nat) {
    && k < |events|
    && (forall i :: 0 <= i < k ==> events[i].Ok? && handle(events[i].value).None?)
    && (events[k].Err? || handle(events[k].value).Some?)
  }

  ghost predicate FoundAt(left: int, events: seq<Result<Visit, NsError>>, handle: Visit -> Option<HandlerError>, k: nat) {
    && StopsFirstAt(events, handle, k) && k < left && events[k].Ok? && handle(events[k].value) == Some(Halted)
    && var visited := Scan(left, events, handle).visited;
    && visited != [] && visited[|visited| - 1] == events[k].value
  }

  /** An event which lets the search go on only moves the place where it stops. */
  lemma FoundNext(left: int, events: seq<Result<Visit, NsError>>, handle: Visit -> Option<HandlerError>, k: nat)
    requires events != [] && left > 0 && events[0].Ok? && handle(events[0].value).None?
    ensures FoundAt(left, events, handle, k + 1) <==> FoundAt(left - 1, events[1..], handle, k)
    ensures !FoundAt(left, events, handle, 0)
  {
    var rest := Scan(left - 1, events[1..], handle).visited;
    assert Scan(left, events, handle).visited == [events[0].value] + rest;
    hide Scan;
    if FoundAt(left, events, handle, k + 1) {
      StopsHere(left - 1, events[1..], handle, k);
    }
  }

  /** The scan visits everything up to where it has to stop. */
  lemma {:induction false} StopsHere(
      left: int, events: seq<Result<Visit, NsError>>, handle: Visit -> Option<HandlerError>, k: nat)
    requires StopsFirstAt(events, handle, k) && k < left && events[k].Ok?
    ensures var r := Scan(left, events, handle);
            r.visited != [] && r.visited[|r.visited| - 1] == events[k].value && r.left == left - k - 1
    decreases k
  {
    if k > 0 {
      StopsHere(left - 1, events[1..], handle, k - 1);
    }
  }

  /** A search finds an element if and only if, in document order, it is the first thing that the search
      has to stop at and the budget reaches that far. */
  lemma {:induction false} FindsFirst(left: int, events: seq<Result<Visit, NsError>>, handle: Visit -> Option<HandlerError>)
    requires left >= 0
    ensures Scan(left, events, handle).stop == Some(Handler(Halted)) <==> exists k: nat :: FoundAt(left, events, handle, k)
  {
    if events != [] && left > 0 && events[0].Ok? && handle(events[0].value).None? {
      FindsFirst(left - 1, events[1..], handle);
      assert Scan(left, events, handle).stop == Scan(left - 1, events[1..], handle).stop;
      hide Scan, FoundAt;
      var less, rest := left - 1, events[1..];
      if k: nat :| FoundAt(less, rest, handle, k) {
        FoundNext(left, events, handle, k);
      }
      if k: nat :| FoundAt(left, events, handle, k) {
        FoundNext(left, events, handle, if k > 0 then k - 1 else 0);
      }
    } else {
      FoundOnlyAtStart(left, events, handle);
    }
  }

  lemma FoundOnlyAtStart(left: int, events: seq<Result<Visit, NsError>>, handle: Visit -> Option<HandlerError>)
    requires left >= 0 && !(events != [] && left > 0 && events[0].Ok? && handle(events[0].value).None?)
    ensures Scan(left, events, handle).stop == Some(Handler(Halted)) <==> FoundAt(left, events, handle, 0)
    ensures forall k: nat :: FoundAt(left, events, handle, k) ==> k == 0
  {
  }

  /** What the prefix of the element resolves to, if it does. */
  function Namespace(v: Visit): Option<string> {
    if v.el.Element? then Lookup(v.ctx, v.el.space) else None
  }

  /** The element has the sought name. */
  predicate Named(v: Visit, namespace: string, tag: Name) {
    v.el.Element? && Namespace(v) == Some(namespace) && v.el.tag == tag
  }

  /** The first element in document order with the sought name, where everything before it resolves. */
  ghost predicate FirstNamed(events: seq<Result<Visit, NsError>>, namespace: string, tag: Name, k: nat) {
    && k < |events| && events[k].Ok? && Named(events[k].value, namespace, tag)
    && forall i :: 0 <= i < k ==>
         events[i].Ok? && Namespace(events[i].value).Some? && !Named(events[i].value, namespace, tag)
  }

  /** The context of a visit is the one inside its element. */
  predicate Inside(v: Visit) {
    v.el.Element? && SubContext(v.ctx, v.el.attrs) == Ok(v.ctx)
  }

  lemma {:induction false} EventsInside(ctx: Context, n: Node)
    ensures forall e :: e in Events(ctx, n) && e.Ok? ==> Inside(e.value)
    decreases n, 1
  {
    hide Inside, Decls, DeclsError;
    if n.Element? && SubContext(ctx, n.attrs).Ok? {
      SubContextTwice(ctx, n);
      EventsInsideAll(SubContext(ctx, n.attrs).value, n.child);
    }
  }

  lemma SubContextTwice(ctx: Context, n: Node)
    requires n.Element? && SubContext(ctx, n.attrs).Ok?
    ensures Inside(Visit(SubContext(ctx, n.attrs).value, n))
  {
    hide Decls, DeclsError;
    assert ctx + Decls(n.attrs) + Decls(n.attrs) == ctx + Decls(n.attrs);
  }

  lemma {:induction false} EventsInsideAll(inner: Context, ns: seq<Node>)
    ensures forall e :: e in EventsAll(inner, ns) && e.Ok? ==> Inside(e.value)
    decreases ns, 0
  {
    hide Inside, Events;
    if ns != [] {
      EventsInside(inner, ns[0]);
      EventsInsideAll(inner, ns[1..]);
    }
  }

  /** What the handler answers inside an element. */
  lemma SeekAnswers(v: Visit, namespace: string, tag: Name)
    requires Inside(v)
    ensures Seek(namespace, tag)(v) ==
              if Namespace(v).None? then Some(Undeclared)
              else if Named(v, namespace, tag) then Some(Halted) else None
  {
  }

  lemma SeekStops(events: seq<Result<Visit, NsError>>, namespace: string, tag: Name, k: nat)
    requires forall e :: e in events && e.Ok? ==> Inside(e.value)
    ensures StopsFirstAt(events, Seek(namespace, tag), k) && events[k].Ok? && Seek(namespace, tag)(events[k].value) == Some(Halted)
       <==> FirstNamed(events, namespace, tag, k)
  {
    hide Inside, Named, Seek, Namespace;
    forall i | 0 <= i < |events| && events[i].Ok?
      ensures Seek(namespace, tag)(events[i].value) ==
                if Namespace(events[i].value).None? then Some(Undeclared)
                else if Named(events[i].value, namespace, tag) then Some(Halted) else None
    {
      assert events[i] in events;
      SeekAnswers(events[i].value, namespace, tag);
    }
    NamedResolves(events, namespace, tag);
  }

  lemma NamedResolves(events: seq<Result<Visit, NsError>>, namespace: string, tag: Name)
    ensures forall i :: 0 <= i < |events| && events[i].Ok? && Named(events[i].value, namespace, tag) ==>
              Namespace(events[i].value).Some?
  {
  }

  /** A search by name finds an element if and only if some element has that name, nothing before it in document
      order fails to resolve, and the budget reaches that far. What is found is the first such element. */
  lemma SeekFinds(left: int, ctx: Context, n: Node, namespace: string, tag: Name)
    requires left >= 0
    ensures var events := Events(ctx, n);
            var r := Scan(left, events, Seek(namespace, tag));
            && (r.stop == Some(Handler(Halted)) <==> exists k: nat :: k < left && FirstNamed(events, namespace, tag, k))
            && (r.stop == Some(Handler(Halted)) ==>
                  exists k: nat :: FirstNamed(events, namespace, tag, k) && r.visited != []
                                   && r.visited[|r.visited| - 1] == events[k].value)
  {
    var events := Events(ctx, n);
    hide Scan, Events, FirstNamed, StopsFirstAt, Seek;
    EventsInside(ctx, n);
    FindsFirst(left, events, Seek(namespace, tag));
    var r := Scan(left, events, Seek(namespace, tag));
    if r.stop == Some(Handler(Halted)) {
      var k: nat :| FoundAt(left, events, Seek(namespace, tag), k);
      SeekStops(events, namespace, tag, k);
      assert k < left && FirstNamed(events, namespace, tag, k);
    }
    if k: nat :| k < left && FirstNamed(events, namespace, tag, k) {
      SeekStops(events, namespace, tag, k);
      StopsHere(left, events, Seek(namespace, tag), k);
      assert FoundAt(left, events, Seek(namespace, tag), k);
    }
  }

  // ---------------------------------------------------------------- handlers that take from the budget

  /** The handler of `NSSelectOneCtx`: what it finds it detaches, and that takes a unit for every element below
      and including it, or all there is. */
  function Select(namespace: string, tag: Name): NsHandler {
    (v: Visit, left: int) => SelectOne(namespace, tag, v, left)
  }

  function SelectOne(namespace: string, tag: Name, v: Visit, left: int): Answer {
    var answer := SeekOne(namespace, tag, v);
    if answer != Some(Halted) then Answer(answer, left)
    else if left >= Count(v.el) then Answer(answer, left - Count(v.el))
    else Answer(Some(SubtreeLimit), if left < 0 then left else 0)
  }

  /** A search that detaches what it finds goes as one that does not, and then pays for the detached copy. */
  lemma {:induction false} SelectPays(left: int, events: seq<Result<Visit, NsError>>, namespace: string, tag: Name)
    requires left >= 0
    ensures var s, r := Scan(left, events, Seek(namespace, tag)), ScanWith(left, events, Select(namespace, tag));
            && r.visited == s.visited && s.left >= 0
            && if s.stop != Some(Handler(Halted)) then r == s
               else
                 && s.visited != []
                 && var size := Count(s.visited[|s.visited| - 1].el);
                 && r.stop == Some(Handler(if s.left >= size then Halted else SubtreeLimit))
                 && r.left == if s.left >= size then s.left - size else 0
    decreases |events|
  {
    hide SeekOne, Count;
    if events != [] && left > 0 && events[0].Ok? && SeekOne(namespace, tag, events[0].value).None? {
      SelectPays(left - 1, events[1..], namespace, tag);
    }
  }

  /** `NSSelectOneCtx` finds an element if and only if it is the first one with the name, everything before it in
      document order resolves, and the budget covers the elements up to it and then all those in it once more. That
      is also what it takes. */
  lemma SelectBudget(left: int, ctx: Context, n: Node, namespace: string, tag: Name, k: nat)
    requires left >= 0 && FirstNamed(Events(ctx, n), namespace, tag, k)
    ensures var events := Events(ctx, n);
            var r, size := ScanWith(left, events, Select(namespace, tag)), Count(events[k].value.el);
            && (r.stop == Some(Handler(Halted)) <==> k + 1 + size <= left)
            && (r.stop == Some(Handler(SubtreeLimit)) <==> k < left < k + 1 + size)
            && (r.stop == Some(LimitReached) <==> left <= k)
            && r.left == (if k + 1 + size <= left then left - (k + 1 + size) else 0)
            && (k < left ==> r.visited != [] && r.visited[|r.visited| - 1] == events[k].value)
  {
    var events := Events(ctx, n);
    hide Scan, ScanWith, Events, FirstNamed, StopsFirstAt, Seek, Select, Count;
    EventsInside(ctx, n);
    SeekStops(events, namespace, tag, k);
    SelectPays(left, events, namespace, tag);
    if k < left {
      StopsHere(left, events, Seek(namespace, tag), k);
      StopsBy(left, events, Seek(namespace, tag), k);
    } else {
      RunsOut(left, events, Seek(namespace, tag), k);
    }
  }

  lemma {:induction false} StopsBy(
      left: int, events: seq<Result<Visit, NsError>>, handle: Visit -> Option<HandlerError>, k: nat)
    requires StopsFirstAt(events, handle, k) && k < left && events[k].Ok?
    ensures Scan(left, events, handle).stop == Some(Handler(handle(events[k].value).value))
    decreases k
  {
    if k > 0 {
      StopsBy(left - 1, events[1..], handle, k - 1);
    }
  }

  lemma {:induction false} RunsOut(
      left: int, events: seq<Result<Visit, NsError>>, handle: Visit -> Option<HandlerError>, k: nat)
    requires StopsFirstAt(events, handle, k) && 0 <= left <= k
    ensures Scan(left, events, handle).stop == Some(LimitReached) && Scan(left, events, handle).left == 0
    decreases k
  {
    if left > 0 {
      RunsOut(left - 1, events[1..], handle, k - 1);
    }
  }

  /** A handler that never objects but takes this much for each element, and fails when there is less. */
  function Paying(cost: Visit -> nat): NsHandler {
    (v: Visit, left: int) =>
      if left >= cost(v) then Answer(None, left - cost(v)) else Answer(Some(SubtreeLimit), if left < 0 then left else 0)
  }

  function Total(events: seq<Result<Visit, NsError>>, cost: Visit -> nat): nat {
    if events == [] then 0 else (if events[0].Ok? then cost(events[0].value) else 0) + Total(events[1..], cost)
  }

  lemma {:induction false} ScanPays(left: int, events: seq<Result<Visit, NsError>>, cost: Visit -> nat)
    requires left >= 0 && forall e :: e in events ==> e.Ok?
    ensures var r, all := ScanWith(left, events, Paying(cost)), |events| + Total(events, cost);
            && (r.stop.None? <==> left >= all)
            && r.left == (if left >= all then left - all else 0)
    decreases |events|
  {
    if events != [] && left > 0 {
      assert events[0] in events;
      var paid := left - 1 - cost(events[0].value);
      if paid >= 0 {
        ScanPays(paid, events[1..], cost);
      }
    }
  }

  /** A traversal whose handler takes from the budget, too, succeeds if and only if the budget covers the tree and
      all that the handler takes. */
  lemma PayingBudget(left: int, ctx: Context, n: Node, cost: Visit -> nat)
    requires left >= 0 && AllAllowed(n)
    ensures var r := ScanWith(left, Events(ctx, n), Paying(cost));
            var all := Count(n) + Total(Events(ctx, n), cost);
            && (r.stop.None? <==> left >= all)
            && r.left == (if left >= all then left - all else 0)
  {
    OneEventEach(ctx, n);
    ScanPays(left, Events(ctx, n), cost);
  }
}
