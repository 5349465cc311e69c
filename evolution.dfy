/** The evolution screen: flattening an evolution-chain tree into the list of
    stages it shows, and what the screen renders once the chain is loaded. */
module Evolution {
  import opened Wrappers
  import Strings

  /** `{ name, url }`, a named reference to a species resource. */
  datatype Species = Species(name: string, url: string)

  /** `EvolutionChainLink`: a species and the links it evolves to, in order. */
  datatype Link = Link(species: Species, evolvesTo: seq<Link>)

  /** `EvolutionChain`: one displayed stage. `id` is `None` where the
      JavaScript value is `undefined`. */
  datatype Stage = Stage(name: string, url: string, id: Option<string>)

  const PokemonEndpoint: string := "https://pokeapi.co/api/v2/pokemon/"

  /** `url.split("/").slice(-2, -1)[0]`: the second-to-last `/`-separated
      segment, or `undefined` when there is only one segment. */
  function IdFromUrl(url: string): Option<string>
  {
    var parts := Strings.Split(url, '/');
    if |parts| < 2 then None else Some(parts[|parts| - 2])
  }

  /** A template literal `${x}`: `undefined` is rendered as "undefined". */
  function Interpolate(x: Option<string>): string
  {
    match x
    case Some(s) => s
    case None => "undefined"
  }

  /** The stage pushed for one species: its name, the pokemon url built
      from its id, and the id itself. */
  function StageOf(s: Species): Stage
  {
    var id := IdFromUrl(s.url);
    Stage(s.name, PokemonEndpoint + Interpolate(id), id)
  }

  /** The stages of a sequence of species, in order. */
  function StagesOf(sp: seq<Species>): (r: seq<Stage>)
    ensures |r| == |sp|
  {
    seq(|sp|, i requires 0 <= i < |sp| => StageOf(sp[i]))
  }

  lemma StagesOfAppend(a: seq<Species>, b: seq<Species>)
    ensures StagesOf(a + b) == StagesOf(a) + StagesOf(b)
  {
    var l, r := StagesOf(a + b), StagesOf(a) + StagesOf(b);
    forall i | 0 <= i < |l| ensures l[i] == r[i] {
      if i < |a| {
        assert (a + b)[i] == a[i];
      } else {
        assert (a + b)[i] == b[i - |a|];
      }
    }
  }

  lemma StagesOfSnoc(a: seq<Species>, x: Species)
    ensures StagesOf(a + [x]) == StagesOf(a) + [StageOf(x)]
  {
    StagesOfAppend(a, [x]);
    assert StagesOf([x]) == [StageOf(x)];
  }

  /** The species of a sequence of links, in order. */
  function SpeciesOf(links: seq<Link>): (r: seq<Species>)
    ensures |r| == |links|
  {
    seq(|links|, i requires 0 <= i < |links| => links[i].species)
  }

  lemma SpeciesOfAppend(a: seq<Link>, b: seq<Link>)
    ensures SpeciesOf(a + b) == SpeciesOf(a) + SpeciesOf(b)
  {
    var l, r := SpeciesOf(a + b), SpeciesOf(a) + SpeciesOf(b);
    forall i | 0 <= i < |l| ensures l[i] == r[i] {
      if i < |a| {
        assert (a + b)[i] == a[i];
      } else {
        assert (a + b)[i] == b[i - |a|];
      }
    }
  }

  /** The species the walk emits: the node itself, then all of its children if
      it branches, otherwise the walk of its only child, if any. */
  function Walk(l: Link): seq<Species>
    decreases l
  {
    [l.species] +
    if |l.evolvesTo| > 1 then SpeciesOf(l.evolvesTo)
    else if |l.evolvesTo| == 1 then Walk(l.evolvesTo[0])
    else []
  }

  /** What `parseEvolutionChain` returns: one stage per species of the walk. */
  function Chain(l: Link): seq<Stage>
  {
    StagesOf(Walk(l))
  }

  /** The nodes the `while` loop visits: it goes on into the only child, and
      stops at a leaf or at the first node with more than one child. */
  function Path(l: Link): (p: seq<Link>)
    ensures |p| >= 1
    decreases l
  {
    [l] + if |l.evolvesTo| == 1 then Path(l.evolvesTo[0]) else []
  }

  /** The loop measure: how many more nodes the loop would visit. */
  function Remaining(current: Option<Link>): nat
  {
    match current
    case Some(l) => |Path(l)|
    case None => 0
  }

  /** The species still to be emitted from the loop's `current`. */
  function Pending(current: Option<Link>): seq<Species>
  {
    match current
    case Some(l) => Walk(l)
    case None => []
  }

  /** A stage's url is the pokemon endpoint followed by the stage's own id. */
  predicate UrlMatchesId(st: Stage)
  {
    st.url == PokemonEndpoint + Interpolate(st.id)
  }

  /** `links.forEach(evolution => evolutionChain.push(...))`: appends the stage
      of every link, in order. */
  method PushStages(evolutionChain: seq<Stage>, links: seq<Link>) returns (pushed: seq<Stage>)
    ensures pushed == evolutionChain + StagesOf(SpeciesOf(links))
  {
    pushed := evolutionChain;
    var k := 0;
    while k < |links|
      invariant 0 <= k <= |links|
      invariant |pushed| == |evolutionChain| + k
      invariant pushed[..|evolutionChain|] == evolutionChain
      invariant forall j :: 0 <= j < k ==> pushed[|evolutionChain| + j] == StageOf(links[j].species)
    {
      var evolution := links[k];
      var pokemonId := IdFromUrl(evolution.species.url);
      pushed := pushed + [Stage(evolution.species.name, PokemonEndpoint + Interpolate(pokemonId), pokemonId)];
      k := k + 1;
    }
  }

  /** `parseEvolutionChain`: one stage per species of the walk, in order. */
  method ParseEvolutionChain(chain: Link) returns (evolutionChain: seq<Stage>)
    ensures evolutionChain == Chain(chain)
  {
    evolutionChain := [];
    ghost var emitted: seq<Species> := [];
    var current: Option<Link> := Some(chain);
    while current.Some?
      invariant evolutionChain == StagesOf(emitted)
      invariant emitted + Pending(current) == Walk(chain)
      decreases Remaining(current)
    {
      var node := current.value;
      WalkStep(node);
      var pokemonIdFromUrl := IdFromUrl(node.species.url);
      var stage := Stage(node.species.name, PokemonEndpoint + Interpolate(pokemonIdFromUrl), pokemonIdFromUrl);
      evolutionChain := evolutionChain + [stage];
      StagesOfSnoc(emitted, node.species);
      ghost var rest := if |node.evolvesTo| > 1 then SpeciesOf(node.evolvesTo)
                        else Pending(if |node.evolvesTo| > 0 then Some(node.evolvesTo[0]) else None);
      AppendAssociates(emitted, [node.species], rest);
      emitted := emitted + [node.species];

      if |node.evolvesTo| > 1 {
        evolutionChain := PushStages(evolutionChain, node.evolvesTo);
        StagesOfAppend(emitted, SpeciesOf(node.evolvesTo));
        emitted := emitted + SpeciesOf(node.evolvesTo);
        break;
      }

      current := if |node.evolvesTo| > 0 then Some(node.evolvesTo[0]) else None;
    }
  }

  lemma AppendAssociates<T>(a: seq<T>, b: seq<T>, c: seq<T>)
    ensures a + (b + c) == (a + b) + c
  {
  }

  /** One step of the walk: the node's own species, then either all of its
      children's species or what remains from its only child. */
  lemma WalkStep(node: Link)
    ensures |node.evolvesTo| > 1 ==> Walk(node) == [node.species] + SpeciesOf(node.evolvesTo)
    ensures |node.evolvesTo| <= 1 ==>
              Walk(node) == [node.species] +
                            Pending(if |node.evolvesTo| > 0 then Some(node.evolvesTo[0]) else None)
    ensures |node.evolvesTo| == 1 ==> Remaining(Some(node.evolvesTo[0])) < Remaining(Some(node))
  {
  }

  /** The walk is never empty and starts with the root species. */
  lemma WalkStartsWithRoot(l: Link)
    ensures |Walk(l)| >= 1 && Walk(l)[0] == l.species
  {
  }

  /** The result is never empty; its first stage is the root species', with
      the id taken from the root's own url. */
  lemma ChainStartsWithRoot(l: Link)
    ensures |Chain(l)| >= 1
    ensures Chain(l)[0] == Stage(l.species.name,
                                 PokemonEndpoint + Interpolate(IdFromUrl(l.species.url)),
                                 IdFromUrl(l.species.url))
  {
    WalkStartsWithRoot(l);
  }

  /** A root that does not evolve yields exactly itself. */
  lemma WalkOfLeaf(l: Link)
    requires l.evolvesTo == []
    ensures Walk(l) == [l.species]
  {
  }

  /** At a branch point the walk is the node and then every child in the
      tree's order; nothing below the children appears. */
  lemma WalkAtBranch(l: Link)
    requires |l.evolvesTo| > 1
    ensures |Walk(l)| == 1 + |l.evolvesTo|
    ensures Walk(l)[0] == l.species
    ensures forall i :: 0 <= i < |l.evolvesTo| ==> Walk(l)[i + 1] == l.evolvesTo[i].species
  {
  }

  /** root -> a -> {b, c, d} yields exactly [root, a, b, c, d], whatever b, c
      and d evolve into. */
  lemma WalkOfBranchBelowRoot(root: Species, a: Species, b: Link, c: Link, d: Link)
    ensures Walk(Link(root, [Link(a, [b, c, d])])) == [root, a, b.species, c.species, d.species]
  {
    assert SpeciesOf([b, c, d]) == [b.species, c.species, d.species];
  }

  /** The last node the loop visits: a leaf or the first branch point. */
  function Stop(l: Link): Link
  {
    var p := Path(l);
    p[|p| - 1]
  }

  /** The loop descends from the root only into `evolvesTo[0]`, and only when
      that is the one child; it stops at a node without exactly one child. */
  lemma {:induction false} PathDescendsThroughOnlyChildren(l: Link)
    ensures Path(l)[0] == l
    ensures forall i :: 0 <= i < |Path(l)| - 1 ==>
              |Path(l)[i].evolvesTo| == 1 && Path(l)[i + 1] == Path(l)[i].evolvesTo[0]
    ensures |Stop(l).evolvesTo| != 1
    decreases l
  {
    if |l.evolvesTo| == 1 {
      var c := l.evolvesTo[0];
      PathDescendsThroughOnlyChildren(c);
      assert Path(l) == [l] + Path(c);
      forall i | 1 <= i < |Path(l)| - 1
        ensures |Path(l)[i].evolvesTo| == 1 && Path(l)[i + 1] == Path(l)[i].evolvesTo[0]
      {
        assert Path(l)[i] == Path(c)[i - 1];
        assert Path(l)[i + 1] == Path(c)[i];
      }
    }
  }

  /** The children of the branch the walk stopped at, if it stopped at one. */
  function BranchSpecies(l: Link): seq<Species>
  {
    if |Stop(l).evolvesTo| > 1 then SpeciesOf(Stop(l).evolvesTo) else []
  }

  /** The walk is the species of the visited nodes followed, when it stopped at
      a branch, by the species of that branch's children. */
  lemma {:induction false} WalkIsPathThenBranch(l: Link)
    ensures Walk(l) == SpeciesOf(Path(l)) + BranchSpecies(l)
    decreases l
  {
    assert SpeciesOf([l]) == [l.species];
    if |l.evolvesTo| == 1 {
      var c := l.evolvesTo[0];
      WalkIsPathThenBranch(c);
      assert Walk(l) == [l.species] + Walk(c);
      assert Path(l) == [l] + Path(c);
      assert Stop(l) == Stop(c);
      assert BranchSpecies(l) == BranchSpecies(c);
      SpeciesOfAppend([l], Path(c));
      AppendAssociates([l.species], SpeciesOf(Path(c)), BranchSpecies(c));
    } else {
      assert Path(l) == [l] && Stop(l) == l;
    }
  }

  /** The output length is the single-child path plus the width of the branch
      point, if the walk stopped at one; so it is at most their sum. */
  lemma ChainLength(l: Link)
    ensures |Chain(l)| == |Path(l)| + (if |Stop(l).evolvesTo| > 1 then |Stop(l).evolvesTo| else 0)
    ensures |Chain(l)| <= |Path(l)| + |Stop(l).evolvesTo|
  {
    WalkIsPathThenBranch(l);
  }

  /** Every node has at most one child. */
  predicate Linear(l: Link)
    decreases l
  {
    |l.evolvesTo| <= 1 && (|l.evolvesTo| == 1 ==> Linear(l.evolvesTo[0]))
  }

  /** All nodes of a tree, in pre-order. */
  function Nodes(l: Link): seq<Link>
    decreases l
  {
    [l] + NodesOf(l.evolvesTo)
  }

  function NodesOf(ls: seq<Link>): seq<Link>
    decreases ls
  {
    if ls == [] then [] else Nodes(ls[0]) + NodesOf(ls[1..])
  }

  /** In a linear chain the walk lists every node from root to leaf, so the
      result's length is the number of nodes. */
  lemma {:induction false} WalkOfLinear(l: Link)
    requires Linear(l)
    ensures Walk(l) == SpeciesOf(Nodes(l))
    ensures |Chain(l)| == |Nodes(l)|
    decreases l
  {
    if |l.evolvesTo| == 1 {
      var c := l.evolvesTo[0];
      WalkOfLinear(c);
      assert l.evolvesTo[1..] == [];
      assert NodesOf(l.evolvesTo) == Nodes(c);
      SpeciesOfAppend([l], Nodes(c));
    } else {
      assert Nodes(l) == [l];
    }
    assert SpeciesOf([l]) == [l.species];
  }

  /** Every stage's url is the endpoint followed by that same stage's id. */
  lemma ChainUrlsMatchIds(l: Link)
    ensures forall i :: 0 <= i < |Chain(l)| ==> UrlMatchesId(Chain(l)[i])
  {
  }

  /** The id is `undefined` exactly when the url has no `/`. */
  lemma IdFromUrlUndefined(url: string)
    ensures IdFromUrl(url).None? <==> '/' !in url
  {
    Strings.SplitCount(url, '/');
  }

  /** A defined id is one whole segment: it never contains a `/`. */
  lemma IdFromUrlIsSegment(url: string)
    ensures IdFromUrl(url).Some? ==> '/' !in IdFromUrl(url).value
  {
    Strings.SplitPiecesLackSeparator(url, '/');
  }

  /** The id is the segment before the last `/`: for a url with a trailing
      slash (`last == ""`) that is the final path segment. */
  lemma SecondToLastSegment(prefix: string, segment: string, last: string)
    requires '/' !in segment && '/' !in last
    ensures IdFromUrl(prefix + "/" + segment + "/" + last) == Some(segment)
  {
    Strings.SplitAround(prefix, segment + "/" + last, '/');
    Strings.SplitAround(segment, last, '/');
    Strings.SplitWithoutSeparator(segment, '/');
    Strings.SplitWithoutSeparator(last, '/');
    assert prefix + "/" + segment + "/" + last == prefix + ['/'] + (segment + ['/'] + last);
  }

  /** The same when `segment` is the first segment or follows a `/`: together
      with `IdFromUrlUndefined` this gives the id of every url. */
  lemma SecondToLastSegmentAfter(prefix: string, segment: string, last: string)
    requires prefix == [] || prefix[|prefix| - 1] == '/'
    requires '/' !in segment && '/' !in last
    ensures IdFromUrl(prefix + segment + "/" + last) == Some(segment)
  {
    if prefix == [] {
      Strings.SplitAround(segment, last, '/');
      Strings.SplitWithoutSeparator(segment, '/');
      Strings.SplitWithoutSeparator(last, '/');
      assert prefix + segment + "/" + last == segment + ['/'] + last;
    } else {
      var p := prefix[..|prefix| - 1];
      SecondToLastSegment(p, segment, last);
      assert prefix == p + "/";
      assert prefix + segment + "/" + last == p + "/" + segment + "/" + last;
    }
  }

  /** A species url `.../pokemon-species/133/` yields the id "133". */
  lemma IdFromSpeciesUrl(api: string)
    ensures IdFromUrl(api + "/pokemon-species/133/") == Some("133")
  {
    SecondToLastSegment(api + "/pokemon-species", "133", "");
    assert api + "/pokemon-species/133/" == api + "/pokemon-species" + "/" + "133" + "/" + "";
  }

  /** Without the trailing slash, `.../pokemon-species/133` yields
      "pokemon-species" rather than the number. */
  lemma IdFromSpeciesUrlWithoutSlash(api: string)
    ensures IdFromUrl(api + "/pokemon-species/133") == Some("pokemon-species")
  {
    SecondToLastSegment(api, "pokemon-species", "133");
    assert api + "/pokemon-species/133" == api + "/" + "pokemon-species" + "/" + "133";
  }

  // ---------------------------------------------------------------------
  // The screen's state and what it renders (the network requests are
  // replaced by their outcome, passed in as a parameter).

  /** The component's `evolutionData`, `loading` and `error` state; an `error`
      of `None` is the initial `null`. */
  datatype ScreenState = ScreenState(data: seq<Stage>, loading: bool, error: Option<string>)

  const Initial: ScreenState := ScreenState([], true, None)

  const NoIdMessage: string := "No Pokémon ID provided"

  /** `!id`: the route parameter is absent or the empty string. */
  predicate Missing(id: Option<string>)
  {
    id.None? || id.value == ""
  }

  /** `fetchEvolutionData` starting from the initial state: `fetched` is the
      chain the two requests delivered, or the message of the error they threw. */
  function AfterFetch(id: Option<string>, fetched: Result<Link, string>): ScreenState
  {
    if Missing(id) then ScreenState(Initial.data, false, Some(NoIdMessage))
    else
      match fetched
      case Ok(chain) => ScreenState(Chain(chain), false, Initial.error)
      case Err(message) => ScreenState(Initial.data, false, Some(message))
  }

  datatype View = ErrorText(message: string) | Spinner | DoesNotEvolve | StageList(stages: seq<Stage>)

  /** What the component returns for a state; `if (error)` treats "" as false. */
  function Render(id: Option<string>, s: ScreenState): View
  {
    if s.error.Some? && s.error.value != "" then ErrorText(s.error.value)
    else if Missing(id) then ErrorText(NoIdMessage)
    else if s.loading then Spinner
    else if |s.data| == 0 then DoesNotEvolve
    else StageList(s.data)
  }

  /** After a successful load the screen lists the parsed chain; it never says
      "This Pokémon does not evolve.", since the parsed chain is never empty.
      The message is reached only by a failure whose message is empty. */
  lemma LoadedChainIsListed(id: Option<string>, fetched: Result<Link, string>)
    ensures fetched.Ok? && !Missing(id) ==> Render(id, AfterFetch(id, fetched)) == StageList(Chain(fetched.value))
    ensures Missing(id) ==> Render(id, AfterFetch(id, fetched)) == ErrorText(NoIdMessage)
    ensures Render(id, AfterFetch(id, fetched)) == DoesNotEvolve <==> !Missing(id) && fetched == Err("")
    ensures !Missing(id) && fetched.Err? && fetched.error != "" ==>
              Render(id, AfterFetch(id, fetched)) == ErrorText(fetched.error)
  {
    if fetched.Ok? {
      ChainStartsWithRoot(fetched.value);
    }
  }

  /** Before the fetch settles, a screen with an id shows the spinner; without
      an id it shows the missing-id error straight away. */
  lemma InitialShowsSpinner(id: Option<string>)
    ensures !Missing(id) ==> Render(id, Initial) == Spinner
    ensures Missing(id) ==> Render(id, Initial) == ErrorText(NoIdMessage)
  {
  }
}
