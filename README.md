# Pokédex evolution and detail screens, modelled in Dafny

This project models the algorithmic core of two screens of a React Native Pokédex app.

- **The evolution screen** (`app/evolution.tsx`). `parseEvolutionChain` walks the evolution-chain tree returned by the PokéAPI. It starts at the root. While the current node has exactly one child, it emits that node and descends into the child. At the first node with more than one child, it emits the node and then every child in order, and stops there. For each emitted species it cuts the id out of the species url (the segment before the last `/`) and rebuilds the pokemon url from that id. The model also covers how the screen picks what it shows: the spinner while the fetch is pending, then the error text, the "does not evolve" message or the stage list, depending on the outcome of the fetch.
- **The detail screen** (`app/about.tsx`). It has three pieces:
  - `typeFormat`, which flattens the raw type slots into type names;
  - the title-casing of the hyphenated species name;
  - the `plateMap` table from type name to type-plate image.

Module layout:

- `wrappers.dfy` (`Wrappers`): `Option` and `Result`. `None` stands for JavaScript's `undefined` or `null`.
- `strings.dfy` (`Strings`): JavaScript's `split` on a one-character separator and `join`, with their laws. These are: join undoes split, the pieces contain no separator, there is one more piece than there are separators, and how splitting behaves around a separator.
- `evolution.dfy` (`Evolution`): the chain tree, the id extraction and `parseEvolutionChain`, which is a `method` with a `while` loop, a `break` and an inner loop for the `forEach`. The method is proved equal to the recursive specification `Chain` (the stages of `Walk`). The screen's render decision is modelled on top of it.
- `plates.dfy` (`TypePlates`): `plateMap` as a finite map over the 18 listed type names.
- `about.dfy` (`About`): `typeFormat`, the primary type, the display-name formatter and the plates shown for a record. The formatter is proved equal to a character-by-character reference, `TitleFrom`.

## Model

| member | source | states |
|---|---|---|
| Evolution.IdFromUrl | app/evolution.tsx:49 | `url.split("/").slice(-2, -1)[0]`: the second-to-last piece, or `undefined` for a one-piece split; its properties are the `IdFromUrl…` and `SecondToLastSegment` rows below |
| Evolution.Walk | app/evolution.tsx:44-73 | the species the walk emits, as a recursive specification; related to the loop by `ParseEvolutionChain` and to the visited path and the pre-order node list by `WalkIsPathThenBranch` and `WalkOfLinear` |
| Evolution.Chain | app/evolution.tsx:44-73 | one stage per species of `Walk`; its properties are the `ChainStartsWithRoot`, `ChainLength` and `ChainUrlsMatchIds` rows |
| Evolution.AfterFetch | app/evolution.tsx:76-101 | the screen state after `fetchEvolutionData`: the missing-id error, the parsed chain, or the thrown message; its outcomes are stated by `LoadedChainIsListed` |
| Evolution.Render | app/evolution.tsx:107-121 | what the screen shows for a state, with `if (error)` treating "" as false; its outcomes are stated by `LoadedChainIsListed` and `InitialShowsSpinner` |
| Evolution.ParseEvolutionChain | app/evolution.tsx:44-73 | the loop over `current`, with its early `break` at the first branching node, returns exactly `Chain(chain)`: one stage per species of `Walk(chain)`, in order |
| Evolution.PushStages | app/evolution.tsx:57-66 | the `forEach` appends one stage per child, in the children's order, and keeps what was already in the list |
| Evolution.ChainStartsWithRoot | app/evolution.tsx:46-54 | the result is never empty; its first entry has the root species' name, the id taken from the root's url, and the url built from that id |
| Evolution.WalkOfLeaf | app/evolution.tsx:48-54 | a root with no `evolves_to` yields exactly one entry, the root |
| Evolution.WalkAtBranch | app/evolution.tsx:57-66 | at a node with more than one child, the walk is that node followed by every child in the tree's order, and nothing else |
| Evolution.WalkOfBranchBelowRoot | app/evolution.tsx:57-66 | for root→A→{B,C,D} the walk is exactly [root, A, B, C, D], whatever B, C and D evolve into |
| Evolution.PathDescendsThroughOnlyChildren | app/evolution.tsx:57-69 | the visited nodes start at the root; each next node is `evolves_to[0]` of a node with exactly one child; the last visited node does not have exactly one child |
| Evolution.WalkIsPathThenBranch | app/evolution.tsx:48-70 | the walk is the species of the visited nodes, followed by the species of the branch point's children when the walk stopped at a branch |
| Evolution.ChainLength | app/evolution.tsx:57-69 | the output length is the single-child path length plus the width of the first branch point, when there is one; so it is at most their sum |
| Evolution.WalkOfLinear | app/evolution.tsx:48-70 | in a chain where every node has at most one child, the walk lists every node in root-to-leaf order, and the output length is the number of nodes |
| Evolution.ChainUrlsMatchIds | app/evolution.tsx:50-54 | every entry's url is `https://pokeapi.co/api/v2/pokemon/` followed by that same entry's id (`undefined` rendered as text) |
| Evolution.IdFromUrlUndefined | app/evolution.tsx:49 | the id is `undefined` exactly when the url contains no `/` |
| Evolution.IdFromUrlIsSegment | app/evolution.tsx:49 | a defined id never contains a `/` |
| Evolution.SecondToLastSegment | app/evolution.tsx:49 | for `prefix/segment/last`, where segment and last contain no `/`, the id is `segment` |
| Evolution.SecondToLastSegmentAfter | app/evolution.tsx:49 | for `segment/last` at the start of the url or after a `/`, with `/`-free segment and last, the id is `segment`; for example "a/b" yields "a" |
| Evolution.IdFromSpeciesUrl | app/evolution.tsx:59 | a species url ending in `/pokemon-species/133/` yields the id "133" |
| Evolution.IdFromSpeciesUrlWithoutSlash | app/evolution.tsx:59 | without the trailing slash, `.../pokemon-species/133` yields "pokemon-species", not the number |
| Evolution.LoadedChainIsListed | app/evolution.tsx:77-121 | once the fetch has settled: a successful load with an id shows the parsed chain; a missing id shows "No Pokémon ID provided"; a failure with a non-empty message shows that message as error text; "does not evolve" is shown exactly when there is an id and the fetch failed with an empty message, so never after a successful load |
| Evolution.InitialShowsSpinner | app/evolution.tsx:39-119 | before the fetch settles, a screen with an id shows the spinner, and one without an id shows the missing-id error |
| Strings.JoinSplit | app/about.tsx:64-66 | joining the pieces of `split(d)` with `d` gives back the original string |
| Strings.SplitCount | app/evolution.tsx:49 | `split` yields one piece more than there are separators in the string |
| Strings.SplitPiecesLackSeparator | app/evolution.tsx:49 | no piece of `split(d)` contains `d` |
| Strings.SplitAround | app/evolution.tsx:49 | splitting `a + d + b` gives the pieces of `a` followed by the pieces of `b` |
| About.TypeFormat | app/about.tsx:9-12 | `typeFormat` keeps the length, and entry i is the name of the type in slot i |
| About.TypeFormatAppend | app/about.tsx:10 | `typeFormat([])` is empty, and flattening a concatenation concatenates the flattened parts |
| About.PrimaryType | app/about.tsx:105 | `typeFormat(types)[0]` is defined exactly when there is a type, and it is the first slot's type name |
| About.DisplayName | app/about.tsx:63-66 | the split/map/join chain itself; its properties are the `DisplayName…` rows below |
| About.DisplayNameIsTitle | app/about.tsx:63-66 | the split/map/join chain equals the character-by-character reference `TitleFrom` |
| About.DisplayNameAt | app/about.tsx:63-66 | the output has the input's length; at each position a `-` becomes a space, a first character of a word is upper-cased, and any other character is unchanged |
| About.DisplayNameSpaces | app/about.tsx:64-66 | the output contains no `-`; for a name without spaces, the output has a space exactly where the name had a `-` |
| About.DisplayNameOfMrMime | app/about.tsx:63-66 | "mr-mime" is shown as "Mr Mime" |
| About.DisplayNameOfEmptyWord | app/about.tsx:65 | the empty word between `--` contributes nothing, leaving two adjacent spaces: "a--b" is shown as "A  B" |
| About.Plates | app/about.tsx:69-71 | `typeFormat(poke.types).map(plate => plateMap[plate])`; its properties are the `PlatesFollowTypes` row |
| About.PlatesFollowTypes | app/about.tsx:69-71 | one plate per type, in order: slot i is present exactly when the i-th type name is a key of `plateMap`, and then it is that type's plate image |
| TypePlates.PlateMapEntries | app/about.tsx:121-140 | the keys of `plateMap` are exactly the listed type names, each mapped to the plate image named after it |
| TypePlates.PlateMapHasEighteenKeys | app/about.tsx:121-140 | `plateMap` has exactly 18 keys; a name is a key if and only if it is one of the listed type names |
| TypePlates.PlateFor | app/about.tsx:70 | `plateMap[plate]`, `undefined` for a name that is not a key; its properties are the `PlateForListed` row |
| TypePlates.PlateForListed | app/about.tsx:70 | `plateMap[plate]` is defined exactly for the listed type names, and it is that type's plate image |

## Left out

- Network requests are not modelled: `fetch`, the `response.ok` checks, JSON parsing and the hop from species to chain url (`app/evolution.tsx:83-100`, `app/about.tsx:33-40`). Their outcome is a parameter of `Evolution.AfterFetch`: the parsed chain, or the message of the error that was thrown.
- The React mechanics are not modelled: state hooks, `useEffect`/`useCallback`, router and navigation calls, `FlatList` rendering and style sheets. The screen state is reduced to what `Evolution.Render` needs to pick what is shown.
- The height and weight text (`app/about.tsx:93`, `app/about.tsx:98`) is left out, because it is floating-point division followed by number-to-string conversion.
- `findBackgroundColor` comes from `app/(tabs)`, which is not part of this model. Only its argument, `About.PrimaryType`, is modelled.
- `TypePlates.Asset`: the value of each `require(...)` is represented by its asset path, not by the bundled module it resolves to.
- `TypePlates.PlateFor`: indexing a JavaScript object also finds keys inherited from `Object.prototype` (such as `constructor`). The model gives no plate for them.
- `About.Upper`: `toUpperCase` is modelled for ASCII letters only. Other characters are left as they are, although JavaScript upper-cases them too, sometimes into more than one character. So the length and position properties hold for the ASCII names the API uses.
- `About.DisplayNameSpaces`: "a space exactly where the name had a `-`" is stated only for names without spaces. An input space is kept, so that property cannot hold for names that contain one.
- Evolution: the `forEach` callback is modelled as the loop of the helper method `PushStages`. Since `parseEvolutionChain` builds and returns a fresh array, the pushes are modelled on a `seq` value and not as a shared mutable array.
- `app/+not-found.tsx` is not modelled: it has no logic (a title, an image and a link).
