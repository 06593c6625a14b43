/** The evaluated link closure of one consumer (packaging/check_encoder_hygiene.py): which targets
    contribute to it once the link items injected by what it uses, and their exclusions, are taken
    into account. */
module LinkClosure {
  import opened Reachability

  type Target = string

  datatype Node = Node(
    links: set<Target>, interface: set<Target>,
    compileLinks: set<Target>, compileInterface: set<Target>,
    direct: set<Target>, exclude: set<Target>)
  {
    predicate Within(targets: set<Target>) {
      && links <= targets && interface <= targets
      && compileLinks <= targets && compileInterface <= targets
      && direct <= targets && exclude <= targets
    }
  }

  type Graph = map<Target, Node>

  /** What the loader establishes: every resolved edge names a target of the graph. */
  predicate WellFormed(graph: Graph) {
    forall target | target in graph :: graph[target].Within(graph.Keys)
  }

  datatype EdgeField = Interface | CompileInterface

  function EdgesOf(graph: Graph, field: EdgeField): Edges<Target> {
    map target | target in graph ::
      if field.Interface? then graph[target].interface else graph[target].compileInterface
  }

  lemma EdgesStayInGraph(graph: Graph, field: EdgeField)
    requires WellFormed(graph)
    ensures IsClosed(EdgesOf(graph, field), graph.Keys)
  {
    forall target | target in graph ensures EdgesOf(graph, field)[target] <= graph.Keys {
      assert graph[target].Within(graph.Keys);
    }
  }

  lemma UsageWithinGraph(graph: Graph, roots: set<Target>, field: EdgeField)
    requires WellFormed(graph) && roots <= graph.Keys
    ensures ReachedFrom(EdgesOf(graph, field), roots) <= graph.Keys
  {
    EdgesStayInGraph(graph, field);
    ReachedIsLeast(EdgesOf(graph, field), roots, graph.Keys);
  }

  /** transitive_usage over the edges of one field: whatever order the pending list is filled in, the
      result is exactly what the roots reach. */
  method TransitiveUsage(edges: Edges<Target>, roots: set<Target>) returns (reached: set<Target>)
    requires roots <= edges.Keys && IsClosed(edges, edges.Keys)
    ensures reached == ReachedFrom(edges, roots)
  {
    FrontierStart(edges, roots);
    reached := {};
    var pending := ListOf(roots);
    while |pending| > 0
      invariant reached + Elements(pending) <= edges.Keys
      invariant IsFrontier(edges, roots, reached, Elements(pending))
      decreases edges.Keys - reached, |pending|
    {
      var current := pending[|pending| - 1];
      ElementsLast(pending);
      pending := pending[..|pending| - 1];
      if current in reached {
        FrontierSkip(edges, roots, reached, Elements(pending), current);
        continue;
      }
      var extension := ListOf(edges[current] - (reached + {current}));
      FrontierVisit(edges, roots, reached, Elements(pending), current, Elements(extension));
      ElementsAppend(pending, extension);
      reached := reached + {current};
      pending := pending + extension;
    }
    FrontierDone(edges, roots, reached);
  }

  function InjectedBy(graph: Graph, usage: set<Target>): set<Target>
    requires usage <= graph.Keys
  {
    set target, item | target in usage && item in graph[target].direct :: item
  }

  function ExcludedBy(graph: Graph, usage: set<Target>): set<Target>
    requires usage <= graph.Keys
  {
    set target, item | target in usage && item in graph[target].exclude :: item
  }

  ghost function UsageOf(graph: Graph, items: set<Target>): (usage: set<Target>)
    requires WellFormed(graph) && items <= graph.Keys
    ensures usage <= graph.Keys
  {
    UsageWithinGraph(graph, items, Interface);
    ReachedFrom(EdgesOf(graph, Interface), items)
  }

  /** The consumer's own links, closed under the items injected by everything they use. */
  ghost predicate IsInjectionClosed(graph: Graph, consumer: Target, items: set<Target>)
    requires WellFormed(graph) && consumer in graph
  {
    && graph[consumer].links <= items <= graph.Keys
    && InjectedBy(graph, UsageOf(graph, items)) <= items
  }

  /** The items in every injection-closed set. */
  ghost function EffectiveDirect(graph: Graph, consumer: Target): (items: set<Target>)
    requires WellFormed(graph) && consumer in graph
    ensures items <= graph.Keys
  {
    set item | item in graph.Keys &&
               forall closed: set<Target> :: IsInjectionClosed(graph, consumer, closed) ==> item in closed
  }

  lemma EffectiveDirectIsLeast(graph: Graph, consumer: Target)
    requires WellFormed(graph) && consumer in graph
    ensures IsInjectionClosed(graph, consumer, EffectiveDirect(graph, consumer))
    ensures forall closed | IsInjectionClosed(graph, consumer, closed) :: EffectiveDirect(graph, consumer) <= closed
  {
    var items := EffectiveDirect(graph, consumer);
    assert graph[consumer].links <= items by {
      assert graph[consumer].Within(graph.Keys);
    }
    forall item | item in InjectedBy(graph, UsageOf(graph, items)) ensures item in items {
      var target :| target in UsageOf(graph, items) && item in graph[target].direct;
      assert graph[target].Within(graph.Keys);
      forall closed | IsInjectionClosed(graph, consumer, closed) ensures item in closed {
        ReachedMonotone(EdgesOf(graph, Interface), items, closed);
        assert target in UsageOf(graph, closed);
        assert item in InjectedBy(graph, UsageOf(graph, closed));
      }
    }
  }

  /** Nothing is injected without a cause: every effective item is a link of the consumer or a direct
      item of a target that the effective items use. */
  lemma EffectiveDirectHasCause(graph: Graph, consumer: Target, item: Target)
    requires WellFormed(graph) && consumer in graph
    requires item in EffectiveDirect(graph, consumer)
    ensures item in graph[consumer].links || item in InjectedBy(graph, UsageOf(graph, EffectiveDirect(graph, consumer)))
  {
    var items := EffectiveDirect(graph, consumer);
    EffectiveDirectIsLeast(graph, consumer);
    var caused := set i | i in items && (i in graph[consumer].links || i in InjectedBy(graph, UsageOf(graph, items)));
    ReachedMonotone(EdgesOf(graph, Interface), caused, items);
    assert InjectedBy(graph, UsageOf(graph, caused)) <= InjectedBy(graph, UsageOf(graph, items));
    assert IsInjectionClosed(graph, consumer, caused);
  }

  /** The closure without any iteration: reachability from the effective items that nothing they use
      excludes, and compile-time reachability from those and the compile-only links. */
  ghost function ClosureOf(graph: Graph, consumer: Target): set<Target>
    requires WellFormed(graph) && consumer in graph
  {
    var items := EffectiveDirect(graph, consumer);
    var kept := items - ExcludedBy(graph, UsageOf(graph, items));
    var compileOnly := graph[consumer].compileLinks - graph[consumer].links;
    ReachedFrom(EdgesOf(graph, Interface), kept)
    + ReachedFrom(EdgesOf(graph, CompileInterface), kept + compileOnly)
  }

  /** consumer_link_closure. */
  method ConsumerLinkClosure(graph: Graph, consumer: Target) returns (closure: set<Target>)
    requires WellFormed(graph) && consumer in graph
    ensures closure == ClosureOf(graph, consumer)
  {
    assert graph[consumer].Within(graph.Keys);
    EdgesStayInGraph(graph, Interface);
    EdgesStayInGraph(graph, CompileInterface);
    EffectiveDirectIsLeast(graph, consumer);
    ghost var items := EffectiveDirect(graph, consumer);
    var initial := graph[consumer].links;
    var effectiveDirect := initial;
    while true
      invariant graph[consumer].links <= effectiveDirect <= items
      decreases items - effectiveDirect
    {
      var usage := TransitiveUsage(EdgesOf(graph, Interface), effectiveDirect);
      assert usage == UsageOf(graph, effectiveDirect);
      var injected := InjectedBy(graph, usage);
      var expanded := effectiveDirect + injected;
      if expanded == effectiveDirect {
        assert IsInjectionClosed(graph, consumer, effectiveDirect);
        break;
      }
      ReachedMonotone(EdgesOf(graph, Interface), effectiveDirect, items);
      assert injected <= InjectedBy(graph, UsageOf(graph, items));
      effectiveDirect := expanded;
    }
    var usage := TransitiveUsage(EdgesOf(graph, Interface), effectiveDirect);
    var excluded := ExcludedBy(graph, usage);
    effectiveDirect := effectiveDirect - excluded;
    var linkUsage := TransitiveUsage(EdgesOf(graph, Interface), effectiveDirect);
    var compileOnlyRoots := graph[consumer].compileLinks - graph[consumer].links;
    var compileUsage := TransitiveUsage(EdgesOf(graph, CompileInterface), effectiveDirect + compileOnlyRoots);
    closure := linkUsage + compileUsage;
  }
}
